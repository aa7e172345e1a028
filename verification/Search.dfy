/** Substring search. */
module Search {
  import opened Bytes
  import opened Bstrings

  /** t stands in s, in one piece, from index i on. */
  predicate OccursAt(s: Text, i: nat, t: Text) {
    i + |t| <= |s| && s[i..i + |t|] == t
  }

  /** i is the least index from pos on where t occurs in s, or BSTR_ERR if there is none. */
  ghost predicate IsFirst(s: Text, pos: nat, t: Text, i: int) {
    if i == BSTR_ERR then forall q: nat :: pos <= q ==> !OccursAt(s, q, t)
    else pos <= i && OccursAt(s, i, t) && forall q: nat :: pos <= q < i ==> !OccursAt(s, q, t)
  }

  lemma FirstIsUnique(s: Text, pos: nat, t: Text, i: int, j: int)
    requires IsFirst(s, pos, t, i) && IsFirst(s, pos, t, j)
    ensures i == j
  {
  }

  /** No place q from pos on where t stands comes before i, and t stands at i unless there is no such place. */
  lemma FirstIs(s: Text, pos: nat, t: Text, i: int, q: nat)
    requires IsFirst(s, pos, t, i)
    ensures i != BSTR_ERR ==> pos <= i && i + |t| <= |s| && s[i..i + |t|] == t
    ensures pos <= q && q + |t| <= |s| && s[q..q + |t|] == t ==> i != BSTR_ERR && i <= q
  {
    assert OccursAt(s, q, t) <==> q + |t| <= |s| && s[q..q + |t|] == t;
  }

  method Binstr(b1: Bstring, pos: int, b2: Bstring) returns (r: int)
    requires b1.Valid() && b2.Valid()
    ensures r >= BSTR_ERR
    ensures pos < 0 ==> r == BSTR_ERR
    ensures 0 <= pos ==> IsFirst(b1.Contents(), pos, b2.Contents(), r)
  {
    if b1.slen == pos {
      return if b2.slen == 0 then pos else BSTR_ERR;
    }
    if b1.slen < pos || pos < 0 {
      return BSTR_ERR;
    }
    if b2.slen == 0 {
      return pos;
    }
    var lf := b1.slen - b2.slen + 1;
    if lf <= pos {
      return BSTR_ERR;
    }
    if b2.slen == 1 {
      r := FindChar(b1, pos, lf, b2);
    } else {
      r := Scan(b1, pos, b2);
    }
  }

  /** The peeled-off case of a needle of one character. */
  method FindChar(b1: Bstring, pos: nat, lf: nat, b2: Bstring) returns (r: int)
    requires b1.Valid() && b2.Valid() && b2.slen == 1 && pos < lf == b1.slen
    ensures IsFirst(b1.Contents(), pos, b2.Contents(), r)
  {
    ghost var s, t := b1.Contents(), b2.Contents();
    var c0 := b2.data[0];
    var i := pos;
    while i < lf
      invariant pos <= i <= lf
      invariant forall q: nat :: pos <= q < i ==> !OccursAt(s, q, t)
    {
      if c0 == b1.data[i] {
        return i;
      }
      NoMatchAt(s, t, i, 0);
      i := i + 1;
    }
    return BSTR_ERR;
  }

  /**
    The scan matches the needle as a subsequence, j characters of it so far, the first of them at ii. A match
    in one piece cannot start so early that its first j characters end before i: the subsequence found takes
    each character as early as it comes. So after a match with gaps the scan may go back by only j.
   */
  method Scan(b1: Bstring, pos: nat, b2: Bstring) returns (r: int)
    requires b1.Valid() && b2.Valid() && b2.slen >= 2 && pos <= b1.slen
    ensures IsFirst(b1.Contents(), pos, b2.Contents(), r)
  {
    hide OccursAt;
    ghost var s, t := b1.Contents(), b2.Contents();
    var ll := b2.slen;
    var c0 := b2.data[0];
    var c1, i, j, ii := c0, pos, 0, BSTR_ERR;
    var lf := b1.slen - 1;
    while true
      invariant pos <= i <= |s|
      invariant 0 <= j < ll && c1 == t[j]
      invariant j > 0 ==> pos <= ii && ii + j <= i
      invariant j > 0 && i == ii + j ==> s[ii..i] == t[..j]
      invariant forall q: nat :: pos <= q && OccursAt(s, q, t) ==> i <= q + j
      decreases |s| - (if j == 0 then i else ii), |s| - i
    {
      if i < lf {
        // Unrolled current character test
        if c1 != b1.data[i] {
          NoMatchAt(s, t, i, j);
          if c1 != b1.data[1 + i] {
            NoMatchAt(s, t, i + 1, j);
            i := i + 2;
            continue;
          }
          i := i + 1;
        }
        if 0 == j {
          ii := i;
        }
        OneMore(s, t, ii, i, j);
        j := j + 1;
        i := i + 1;
        if j < ll {
          c1 := b2.data[j];
          continue;
        }
        if i == ii + j {
          Found(s, t, ii);
          return ii;
        }
      } else if i == lf && ll == j + 1 && c1 == b1.data[i] {
        // The unrolling left the last character unread
        if i == ii + j {
          FoundWithLast(s, t, ii, j);
          return ii;
        }
      } else {
        NoneLeft(s, t, pos, i, j);
        return BSTR_ERR;
      }
      // Shift back to the beginning
      i := i - j;
      j := 0;
      c1 := c0;
    }
  }

  // A match whose character j would stand at i is refuted by that character.
  lemma NoMatchAt(s: Text, t: Text, i: nat, j: nat)
    requires i < |s| && j < |t| && s[i] != t[j]
    ensures j <= i ==> !OccursAt(s, i - j, t)
  {
    assert j <= i && i - j + |t| <= |s| ==> s[i - j..i - j + |t|][j] == s[i];
  }

  lemma OneMore(s: Text, t: Text, ii: nat, i: nat, j: nat)
    requires i < |s| && j < |t| && s[i] == t[j]
    requires i == ii + j && j > 0 ==> s[ii..i] == t[..j]
    ensures i == ii + j ==> s[ii..i + 1] == t[..j + 1]
  {
    assert i == ii + j ==> s[ii..i + 1] == s[ii..i] + [s[i]];
  }

  lemma Found(s: Text, t: Text, ii: nat)
    requires ii + |t| <= |s| && s[ii..ii + |t|] == t[..|t|]
    ensures OccursAt(s, ii, t)
  {
  }

  lemma FoundWithLast(s: Text, t: Text, ii: nat, j: nat)
    requires |t| == j + 1 && ii + j < |s|
    requires s[ii..ii + j] == t[..j] && s[ii + j] == t[j]
    ensures OccursAt(s, ii, t)
  {
    assert t == t[..j] + [t[j]];
    assert s[ii..ii + |t|] == s[ii..ii + j] + [s[ii + j]];
  }

  lemma NoneLeft(s: Text, t: Text, pos: nat, i: nat, j: nat)
    requires j < |t| && |s| - 1 <= i <= |s|
    requires i == |s| - 1 && |t| == j + 1 ==> s[i] != t[j]
    requires forall q: nat :: pos <= q && OccursAt(s, q, t) ==> i <= q + j
    ensures IsFirst(s, pos, t, BSTR_ERR)
  {
    forall q: nat | pos <= q
      ensures !OccursAt(s, q, t)
    {
      if i == |s| - 1 && |t| == j + 1 {
        NoMatchAt(s, t, i, j);
      }
    }
  }
}
