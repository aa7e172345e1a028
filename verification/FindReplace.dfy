/** Replacement of all matches of a string, in place. */
module FindReplace {
  import opened Bytes
  import opened Bstrings
  import opened Search

  /** s from pos on, with every match replaced; matches are taken left to right and do not overlap. */
  function Replaced(s: Text, pos: nat, find: Text, repl: Text): Text
    requires pos <= |s| && find != []
    decreases |s| - pos
  {
    if OccursAt(s, pos, find) then repl + Replaced(s, pos + |find|, find, repl)
    else if pos < |s| then [s[pos]] + Replaced(s, pos + 1, find, repl)
    else []
  }

  /** The matches that Replaced takes. */
  function Matches(s: Text, pos: nat, find: Text): seq<nat>
    requires pos <= |s| && find != []
    decreases |s| - pos
  {
    if OccursAt(s, pos, find) then [pos] + Matches(s, pos + |find|, find)
    else if pos < |s| then Matches(s, pos + 1, find)
    else []
  }

  /** s with every match from pos on replaced. */
  function ReplaceAll(s: Text, pos: nat, find: Text, repl: Text): Text
    requires find != []
  {
    if pos + |find| > |s| then s else s[..pos] + Replaced(s, pos, find, repl)
  }

  lemma {:induction false} ReplacedLength(s: Text, pos: nat, find: Text, repl: Text)
    requires pos <= |s| && find != []
    ensures |Replaced(s, pos, find, repl)| == |s| - pos + |Matches(s, pos, find)| * (|repl| - |find|)
    decreases |s| - pos
  {
    hide OccursAt;
    if OccursAt(s, pos, find) {
      MatchFits(s, pos, find);
      ReplacedLength(s, pos + |find|, find, repl);
      OneMore(|Matches(s, pos + |find|, find)|, |repl| - |find|);
    } else if pos < |s| {
      ReplacedLength(s, pos + 1, find, repl);
    }
  }

  lemma MatchFits(s: Text, pos: nat, find: Text)
    requires OccursAt(s, pos, find)
    ensures pos + |find| <= |s|
  {
  }

  /** Every match changes the length by the difference of the two strings. */
  lemma ReplaceAllLength(s: Text, pos: nat, find: Text, repl: Text)
    requires find != [] && pos + |find| <= |s|
    ensures |ReplaceAll(s, pos, find, repl)| == |s| + |Matches(s, pos, find)| * (|repl| - |find|)
  {
    ReplacedLength(s, pos, find, repl);
  }

  lemma OneMore(n: nat, m: int)
    ensures (n + 1) * m == n * m + m
  {
  }

  /** m added up n times. */
  function Times(n: nat, m: nat): nat {
    if n == 0 then 0 else Times(n - 1, m) + m
  }

  lemma {:induction false} TimesIsProduct(n: nat, m: nat)
    ensures Times(n, m) == n * m
  {
    if n > 0 {
      TimesIsProduct(n - 1, m);
      OneMore(n - 1, m);
    }
  }

  // Where no match starts, the text stays.
  lemma {:induction false} NoneBefore(s: Text, pos: nat, i: nat, find: Text, repl: Text)
    requires pos <= i <= |s| && find != []
    requires forall q: nat :: pos <= q < i ==> !OccursAt(s, q, find)
    ensures Replaced(s, pos, find, repl) == s[pos..i] + Replaced(s, i, find, repl)
    ensures Matches(s, pos, find) == Matches(s, i, find)
    decreases i - pos
  {
    hide OccursAt, Replaced;
    if pos < i {
      ReplacedStep(s, pos, find, repl);
      NoneBefore(s, pos + 1, i, find, repl);
      Extended(s, pos, i, Replaced(s, i, find, repl));
    } else {
      assert s[pos..i] + Replaced(s, i, find, repl) == Replaced(s, i, find, repl);
    }
  }

  lemma NoneAtAll(s: Text, pos: nat, find: Text, repl: Text)
    requires pos <= |s| && find != []
    requires IsFirst(s, pos, find, BSTR_ERR)
    ensures Replaced(s, pos, find, repl) == s[pos..]
    ensures Matches(s, pos, find) == []
  {
    NoneBefore(s, pos, |s|, find, repl);
  }

  // Only what stands at pos and behind it decides where the next match is.
  lemma SameMatches(s: Text, t: Text, pos: nat, find: Text, i: int)
    requires |s| == |t| && pos <= |s| && s[pos..] == t[pos..]
    requires IsFirst(s, pos, find, i)
    ensures IsFirst(t, pos, find, i)
  {
    forall q: nat | pos <= q && q + |find| <= |s|
      ensures OccursAt(s, q, find) == OccursAt(t, q, find)
    {
      SameSlice(s, t, pos, q, q + |find|);
    }
  }

  lemma NextMatch(s: Text, pos: nat, i: nat, find: Text, repl: Text)
    requires pos <= |s| && find != []
    requires IsFirst(s, pos, find, i)
    ensures pos <= i && i + |find| <= |s|
    ensures Replaced(s, pos, find, repl) == s[pos..i] + repl + Replaced(s, i + |find|, find, repl)
    ensures Matches(s, pos, find) == [i] + Matches(s, i + |find|, find)
  {
    NoneBefore(s, pos, i, find, repl);
  }

  /** Once out is written for the part of s before pos, what remains to be written leads to the result. */
  ghost predicate Written(s: Text, start: nat, find: Text, repl: Text, pos: nat, out: Text) {
    && find != [] && start <= pos <= |s|
    && out + Replaced(s, pos, find, repl) == s[..start] + Replaced(s, start, find, repl)
  }

  lemma WriteNext(s: Text, start: nat, find: Text, repl: Text, pos: nat, out: Text, i: nat)
    requires Written(s, start, find, repl, pos, out) && IsFirst(s, pos, find, i)
    ensures pos <= i && i + |find| <= |s|
    ensures Written(s, start, find, repl, i + |find|, out + s[pos..i] + repl)
  {
    hide Replaced, IsFirst;
    NextMatch(s, pos, i, find, repl);
    Regroup(out, s[pos..i], repl, Replaced(s, i + |find|, find, repl));
  }

  lemma Regroup(a: Text, b: Text, c: Text, d: Text)
    ensures a + (b + c + d) == a + b + c + d
  {
  }

  /**
    A block of memory part-way through a replacement: it is searched up to pos, what is behind pos still
    stands, and the result so far ends acc places before pos.
   */
  ghost predicate Progress(s: Text, start: nat, find: Text, repl: Text, pos: nat, acc: nat, mem: Text) {
    && acc <= pos <= |s| <= |mem|
    && mem[pos..|s|] == s[pos..|s|]
    && Written(s, start, find, repl, pos, mem[..pos - acc])
  }

  lemma ProgressFirst(s: Text, start: nat, find: Text, repl: Text, mem: Text)
    requires find != [] && start <= |s| <= |mem| && mem[..|s|] == s
    ensures Progress(s, start, find, repl, start, 0, mem)
  {
    assert s[..|s|] == s;
    SamePart(mem, s, 0, |s|, start, |s|);
    SamePart(mem, s, 0, |s|, 0, start);
  }

  lemma ProgressSearch(s: Text, start: nat, find: Text, repl: Text, pos: nat, acc: nat, mem: Text, i: int)
    requires Progress(s, start, find, repl, pos, acc, mem)
    requires IsFirst(mem[..|s|], pos, find, i)
    ensures IsFirst(s, pos, find, i)
  {
    SliceOfSlice(mem, 0, |s|, pos, |s|);
    SameMatches(mem[..|s|], s, pos, find, i);
  }

  lemma ProgressNext(s: Text, start: nat, find: Text, repl: Text, pos: nat, acc: nat, mem: Text, i: nat,
                     pos': nat, acc': nat, next: Text)
    requires Progress(s, start, find, repl, pos, acc, mem) && |repl| <= |find|
    requires IsFirst(s, pos, find, i) && pos <= i && i + |find| <= |s|
    requires pos' == i + |find| && acc' == acc + |find| - |repl|
    requires |next| == |mem|
    requires next[..i - acc + |repl|] == mem[..pos - acc] + mem[pos..i] + repl
    requires next[i - acc + |repl|..] == mem[i - acc + |repl|..]
    ensures Progress(s, start, find, repl, pos', acc', next)
  {
    hide Written, IsFirst;
    WriteNext(s, start, find, repl, pos, mem[..pos - acc], i);
    assert i - acc + |repl| == pos' - acc';
    SamePart(mem, s, pos, |s|, pos, i);
    SameSlice(next, mem, i - acc + |repl|, i + |find|, |s|);
    SamePart(mem, s, pos, |s|, i + |find|, |s|);
  }

  lemma ProgressEnd(s: Text, start: nat, find: Text, repl: Text, pos: nat, acc: nat, mem: Text)
    requires Progress(s, start, find, repl, pos, acc, mem) && start + |find| <= |s|
    requires IsFirst(s, pos, find, BSTR_ERR)
    ensures mem[..pos - acc] + mem[pos..|s|] == ReplaceAll(s, start, find, repl)
  {
    NoneAtAll(s, pos, find, repl);
  }

  lemma FirstFits(s: Text, pos: nat, find: Text, i: nat)
    requires IsFirst(s, pos, find, i)
    ensures pos <= i && i + |find| <= |s|
  {
  }

  /** The text between two matches moves down by acc. */
  method MoveText(a: array<byte>, pos: nat, acc: nat, i: nat)
    requires acc <= pos <= i <= a.Length
    modifies a
    ensures a[..i - acc] == old(a[..pos - acc] + a[pos..i])
    ensures a[i - acc..] == old(a[i - acc..])
  {
    ghost var before := a[..];
    if acc != 0 && i > pos {
      MemMove(a, pos - acc, pos, i - pos);
    }
    assert a[pos - acc..i - acc] == before[pos..i] && a[..pos - acc] == before[..pos - acc];
    assert a[..i - acc] == a[..pos - acc] + a[pos - acc..i - acc];
  }

  /** One piece of the shrinking replacement: the text between two matches moves down by acc, then repl follows. */
  method MovePiece(a: array<byte>, pos: nat, acc: nat, i: nat, repl: Text)
    requires acc <= pos <= i && i - acc + |repl| <= a.Length && i <= a.Length
    modifies a
    ensures a[..i - acc + |repl|] == old(a[..pos - acc] + a[pos..i]) + repl
    ensures a[i - acc + |repl|..] == old(a[i - acc + |repl|..])
  {
    ghost var before, q, n := a[..], i - acc, |repl|;
    MoveText(a, pos, acc, i);
    ghost var moved := a[..];
    assert moved[q..] == before[q..];
    SameSlice(moved, before, q, q + n, |before|);
    MemCpy(a, i - acc, repl);
    assert a[..q + n] == a[..q] + a[q..q + n];
  }

  /** One match, at i, is replaced in place. */
  method ReplaceOne(a: array<byte>, pos: nat, acc: nat, i: nat, repl: Text,
                    ghost s: Text, ghost start: nat, ghost find: Text)
    requires Progress(s, start, find, repl, pos, acc, a[..]) && IsFirst(s, pos, find, i) && |repl| <= |find|
    modifies a
    ensures pos <= i && i + |find| <= |s|
    ensures Progress(s, start, find, repl, i + |find|, acc + |find| - |repl|, a[..])
    ensures a[|s|..] == old(a[|s|..])
  {
    hide OccursAt, IsFirst, Written;
    ghost var before := a[..];
    FirstFits(s, pos, find, i);
    MovePiece(a, pos, acc, i, repl);
    assert a[..][i - acc + |repl|..] == before[i - acc + |repl|..];
    ProgressNext(s, start, find, repl, pos, acc, before, i, i + |find|, acc + |find| - |repl|, a[..]);
    SameSlice(a[..], before, i - acc + |repl|, |s|, |before|);
  }

  /** Replacement by a string of the same length. */
  method ReplaceEqual(b: Bstring, find: Bstring, repl: Bstring, start: nat)
    requires b.Valid() && find.Valid() && repl.Valid()
    requires b.data != find.data && b.data != repl.data
    requires 0 < find.slen == repl.slen && start + find.slen <= b.slen
    modifies b.data
    ensures b.Contents() == ReplaceAll(old(b.Contents()), start, find.Contents(), repl.Contents())
    ensures b.data[b.slen..] == old(b.data[b.slen..])
  {
    hide OccursAt, IsFirst, ReplaceAll, Progress;
    ghost var s, f, r, mem := b.Contents(), find.Contents(), repl.Contents(), b.data[..];
    ProgressFirst(s, start, f, r, mem);
    var pos := start;
    while true
      invariant pos <= |s|
      invariant find.Contents() == f && repl.Contents() == r
      invariant mem == b.data[..] && mem[|s|..] == old(b.data[b.slen..])
      invariant Progress(s, start, f, r, pos, 0, mem)
      decreases |s| - pos
    {
      var i := Binstr(b, pos, find);
      assert b.Contents() == mem[..|s|];
      ProgressSearch(s, start, f, r, pos, 0, mem, i);
      if i < 0 {
        ProgressEnd(s, start, f, r, pos, 0, mem);
        assert b.Contents() == mem[..pos] + mem[pos..|s|];
        return;
      }
      ReplaceOne(b.data, pos, 0, i, repl.data[..repl.slen], s, start, f);
      mem := b.data[..];
      pos := i + find.slen;
    }
  }

  /** The rest of the string moves down by acc, unless nothing was replaced. */
  method CloseGap(b: Bstring, pos: nat, acc: nat)
    requires b.Valid() && acc <= pos <= b.slen
    modifies b, b.data
    ensures b.Valid() && b.data == old(b.data)
    ensures b.Contents() == old(b.data[..pos - acc] + b.data[pos..b.slen])
    ensures acc > 0 || old(b.Terminated()) ==> b.Terminated()
  {
    if acc != 0 {
      MovePiece(b.data, pos, acc, b.slen, []);
      b.slen := b.slen - acc;
      b.data[b.slen] := 0;
    } else {
      assert b.Contents() == b.data[..pos] + b.data[pos..b.slen];
    }
  }

  /** Replacement by a shorter string. */
  method ReplaceShrinking(b: Bstring, find: Bstring, repl: Bstring, start: nat)
    requires b.Valid() && find.Valid() && repl.Valid()
    requires b != find && b != repl && b.data != find.data && b.data != repl.data
    requires repl.slen < find.slen && start + find.slen <= b.slen
    modifies b, b.data
    ensures b.Valid() && b.data == old(b.data)
    ensures b.Contents() == ReplaceAll(old(b.Contents()), start, find.Contents(), repl.Contents())
    ensures old(b.Terminated()) ==> b.Terminated()
  {
    hide OccursAt, IsFirst, ReplaceAll, Progress;
    ghost var s, f, r, mem := b.Contents(), find.Contents(), repl.Contents(), b.data[..];
    ProgressFirst(s, start, f, r, mem);
    var delta := find.slen - repl.slen;
    var pos: nat, acc: nat := start, 0;
    while true
      invariant acc <= pos <= |s|
      invariant b.slen == |s| && b.data == old(b.data)
      invariant find.Contents() == f && repl.Contents() == r
      invariant mem == b.data[..] && (acc == 0 ==> mem == old(b.data[..]))
      invariant Progress(s, start, f, r, pos, acc, mem)
      decreases |s| - pos
    {
      var i := Binstr(b, pos, find);
      assert b.Contents() == mem[..|s|];
      ProgressSearch(s, start, f, r, pos, acc, mem, i);
      if i < 0 {
        ProgressEnd(s, start, f, r, pos, acc, mem);
        break;
      }
      ReplaceOne(b.data, pos, acc, i, repl.data[..repl.slen], s, start, f);
      mem := b.data[..];
      acc := acc + delta;
      pos := i + find.slen;
    }
    CloseGap(b, pos, acc);
  }

  method Grow(d: array<nat>, n: nat, mlen: nat) returns (t: array<nat>)
    requires n <= d.Length && n <= mlen
    ensures fresh(t) && t.Length == mlen && t[..n] == d[..n]
  {
    t := new nat[mlen];
    forall k | 0 <= k < n {
      t[k] := d[k];
    }
  }

  /**
    All matches, and behind them the length of the string, in an array that doubles when it is full; and the
    room that a longer string takes at all of them together.
   */
  method FindAll(b: Bstring, find: Bstring, start: nat, grow: nat) returns (d: array<nat>, n: nat, acc: nat)
    requires b.Valid() && find.Valid() && find.slen > 0 && start + find.slen <= b.slen
    ensures fresh(d) && n == |Matches(b.Contents(), start, find.Contents())| < d.Length
    ensures MatchTable(d[..n + 1], b.Contents(), start, find.Contents())
    ensures acc == Times(n, grow)
  {
    hide OccursAt, IsFirst, Matches, MatchTable;
    ghost var got: seq<nat> := [];
    ghost var s, f, all := b.Contents(), find.Contents(), Matches(b.Contents(), start, find.Contents());
    var mlen := INITIAL_STATIC_FIND_INDEX_COUNT;
    d := new nat[mlen + 1];
    n, acc := 0, 0;
    var pos := start;
    while true
      invariant fresh(d) && n < mlen <= d.Length
      invariant pos <= |s| && acc == Times(n, grow)
      invariant got == d[..n] && got + Matches(s, pos, f) == all
      decreases |s| - pos
    {
      var i := Binstr(b, pos, find);
      if i < 0 {
        NoneAtAll(s, pos, f, []);
        assert got + [] == got;
        break;
      }
      FirstFits(s, pos, f, i);
      NextMatch(s, pos, i, f, []);
      assert got + ([i] + Matches(s, i + |f|, f)) == got + [i] + Matches(s, i + |f|, f);
      if n >= mlen - 1 {
        mlen := mlen + mlen;
        d := Grow(d, n, mlen);
      }
      Put(d, n, i);
      n, got := n + 1, got + [i];
      acc := acc + grow;
      pos := i + find.slen;
    }
    Put(d, n, b.slen);
    WholeTable(d[..n + 1], s, start, f);
  }

  lemma WholeTable(slots: seq<nat>, s: Text, pos: nat, find: Text)
    requires pos <= |s| && find != [] && slots == Matches(s, pos, find) + [|s|]
    ensures MatchTable(slots, s, pos, find)
  {
  }

  method Put(d: array<nat>, n: nat, x: nat)
    requires n < d.Length
    modifies d
    ensures d[..n + 1] == old(d[..n]) + [x]
  {
    d[n] := x;
  }

  const INITIAL_STATIC_FIND_INDEX_COUNT := 32

  /** Where match k starts, or the end of s behind the last match. */
  function Boundary(s: Text, pos: nat, find: Text, k: nat): nat
    requires pos <= |s| && find != []
  {
    var m := Matches(s, pos, find);
    if k < |m| then m[k] else |s|
  }

  lemma ReplacedStep(s: Text, pos: nat, find: Text, repl: Text)
    requires pos <= |s| && find != []
    ensures OccursAt(s, pos, find) ==>
              pos + |find| <= |s| && Replaced(s, pos, find, repl) == repl + Replaced(s, pos + |find|, find, repl)
    ensures !OccursAt(s, pos, find) && pos < |s| ==>
              Replaced(s, pos, find, repl) == [s[pos]] + Replaced(s, pos + 1, find, repl)
    ensures !OccursAt(s, pos, find) && pos == |s| ==> Replaced(s, pos, find, repl) == []
  {
    OccursFits(s, pos, find);
    hide OccursAt;
  }

  lemma Extended(s: Text, pos: nat, b: nat, rest: Text)
    requires pos < b <= |s|
    ensures [s[pos]] + (s[pos + 1..b] + rest) == s[pos..b] + rest
  {
  }

  lemma BoundaryStep(s: Text, pos: nat, find: Text, k: nat)
    requires pos <= |s| && find != []
    ensures OccursAt(s, pos, find) ==>
              && pos + |find| <= |s|
              && |Matches(s, pos, find)| == 1 + |Matches(s, pos + |find|, find)|
              && Boundary(s, pos, find, 0) == pos
              && Boundary(s, pos, find, k + 1) == Boundary(s, pos + |find|, find, k)
    ensures !OccursAt(s, pos, find) && pos < |s| ==>
              && |Matches(s, pos, find)| == |Matches(s, pos + 1, find)|
              && Boundary(s, pos, find, k) == Boundary(s, pos + 1, find, k)
    ensures !OccursAt(s, pos, find) && pos == |s| ==>
              |Matches(s, pos, find)| == 0 && Boundary(s, pos, find, k) == |s|
  {
    OccursFits(s, pos, find);
    hide OccursAt;
  }

  lemma {:induction false} UpToFirst(s: Text, pos: nat, find: Text, repl: Text)
    requires pos <= |s| && find != []
    ensures pos <= Boundary(s, pos, find, 0) <= |s|
    ensures Replaced(s, pos, find, repl)
         == s[pos..Boundary(s, pos, find, 0)] + Replaced(s, Boundary(s, pos, find, 0), find, repl)
    decreases |s| - pos
  {
    hide OccursAt, Matches, Boundary, Replaced;
    BoundaryStep(s, pos, find, 0);
    ReplacedStep(s, pos, find, repl);
    var b := Boundary(s, pos, find, 0);
    if !OccursAt(s, pos, find) && pos < |s| {
      UpToFirst(s, pos + 1, find, repl);
      Extended(s, pos, b, Replaced(s, b, find, repl));
    } else {
      assert s[pos..b] + Replaced(s, b, find, repl) == Replaced(s, b, find, repl);
    }
  }

  // From one match to the next: the replacement, then the text between them.
  lemma {:induction false} UpToNext(s: Text, pos: nat, find: Text, repl: Text, k: nat)
    requires pos <= |s| && find != [] && k < |Matches(s, pos, find)|
    ensures Boundary(s, pos, find, k) + |find| <= Boundary(s, pos, find, k + 1) <= |s|
    ensures Replaced(s, Boundary(s, pos, find, k), find, repl)
         == repl + s[Boundary(s, pos, find, k) + |find|..Boundary(s, pos, find, k + 1)]
            + Replaced(s, Boundary(s, pos, find, k + 1), find, repl)
    decreases |s| - pos
  {
    hide OccursAt, Matches, Boundary, Replaced;
    BoundaryStep(s, pos, find, k);
    ReplacedStep(s, pos, find, repl);
    if !OccursAt(s, pos, find) {
      BoundaryStep(s, pos, find, k + 1);
      UpToNext(s, pos + 1, find, repl, k);
    } else if k > 0 {
      BoundaryStep(s, pos, find, k - 1);
      UpToNext(s, pos + |find|, find, repl, k - 1);
    } else {
      UpToFirst(s, pos + |find|, find, repl);
      Regroup(repl, [], s[pos + |find|..Boundary(s, pos, find, 1)], Replaced(s, Boundary(s, pos, find, 1), find, repl));
    }
  }

  lemma OccursFits(s: Text, pos: nat, find: Text)
    ensures OccursAt(s, pos, find) ==> pos + |find| <= |s|
  {
  }

  /**
    A block of memory part-way through an expansion: what stands before hi is as it was, and behind it the
    result from hi on stands acc places further on.
   */
  ghost predicate Spread(s: Text, find: Text, repl: Text, hi: nat, acc: nat, mem: Text) {
    && find != [] && hi <= |s| && hi + acc + |Replaced(s, hi, find, repl)| <= |mem|
    && mem[..hi] == s[..hi]
    && mem[hi + acc..hi + acc + |Replaced(s, hi, find, repl)|] == Replaced(s, hi, find, repl)
  }

  /** One piece of the expanding replacement: the text behind a match moves up by acc, and repl goes before it. */
  method SpreadPiece(a: array<byte>, p: nat, l: nat, acc: nat, repl: Text)
    requires |repl| <= p + acc && p + l + acc <= a.Length
    modifies a
    ensures a[..p + acc - |repl|] == old(a[..p + acc - |repl|])
    ensures a[p + acc - |repl|..p + acc + l] == repl + old(a[p..p + l])
    ensures a[p + acc + l..] == old(a[p + acc + l..])
  {
    ghost var before := a[..];
    MoveUp(a, p, l, acc);
    ghost var moved := a[..];
    MemCpy(a, p + acc - |repl|, repl);
    SpreadOut(before, moved, a[..], p + acc - |repl|, before[p..p + l], repl);
  }

  method MoveUp(a: array<byte>, p: nat, l: nat, acc: nat)
    requires p + l + acc <= a.Length
    modifies a
    ensures a[..p + acc] == old(a[..p + acc])
    ensures a[p + acc..p + acc + l] == old(a[p..p + l])
    ensures a[p + acc + l..] == old(a[p + acc + l..])
  {
    if l != 0 {
      MemMove(a, p + acc, p, l);
    }
  }

  lemma SpreadOut(before: Text, moved: Text, after: Text, q: nat, piece: Text, repl: Text)
    requires |before| == |moved| == |after| && q + |repl| + |piece| <= |after|
    requires var m := q + |repl|;
             moved[..m] == before[..m] && moved[m..m + |piece|] == piece
             && moved[m + |piece|..] == before[m + |piece|..]
    requires after[..q] == moved[..q] && after[q..q + |repl|] == repl && after[q + |repl|..] == moved[q + |repl|..]
    ensures after[..q] == before[..q]
    ensures after[q..q + |repl| + |piece|] == repl + piece
    ensures after[q + |repl| + |piece|..] == before[q + |repl| + |piece|..]
  {
    var m := q + |repl|;
    SameSlice(after, moved, m, m, m + |piece|);
    SameSlice(after, moved, m, m + |piece|, |after|);
    assert after[q..m + |piece|] == after[q..m] + after[m..m + |piece|];
    SamePart(moved, before, 0, m, 0, q);
  }

  lemma SpreadNext(s: Text, find: Text, repl: Text, lo: nat, hi: nat, acc: nat, mem: Text, acc': nat, next: Text)
    requires find != [] && lo + |find| <= hi <= |s|
    requires Replaced(s, lo, find, repl) == repl + s[lo + |find|..hi] + Replaced(s, hi, find, repl)
    requires acc' + |repl| == acc + |find|
    requires Spread(s, find, repl, hi, acc, mem) && |next| == |mem|
    requires next[..lo + acc'] == mem[..lo + acc']
    requires next[lo + acc'..hi + acc] == repl + mem[lo + |find|..hi]
    requires next[hi + acc..] == mem[hi + acc..]
    ensures Spread(s, find, repl, lo, acc', next)
  {
    hide Replaced;
    var q, rest := lo + acc', Replaced(s, hi, find, repl);
    SamePart(mem, s, 0, hi, lo + |find|, hi);
    SameSlice(next, mem, hi + acc, hi + acc, hi + acc + |rest|);
    assert next[q..hi + acc + |rest|] == next[q..hi + acc] + next[hi + acc..hi + acc + |rest|];
    SamePart(mem, s, 0, hi, 0, lo);
    SamePart(next, mem, 0, q, 0, lo);
  }

  lemma SpreadFirst(s: Text, find: Text, repl: Text, acc: nat, mem: Text)
    requires find != [] && |s| + acc <= |mem| && mem[..|s|] == s
    ensures Spread(s, find, repl, |s|, acc, mem)
  {
  }

  lemma SpreadEnd(s: Text, find: Text, repl: Text, pos: nat, mem: Text)
    requires pos + |find| <= |s| && find != []
    requires Spread(s, find, repl, Boundary(s, pos, find, 0), 0, mem)
    ensures |ReplaceAll(s, pos, find, repl)| <= |mem|
    ensures mem[..|ReplaceAll(s, pos, find, repl)|] == ReplaceAll(s, pos, find, repl)
  {
    hide Replaced, Matches, Boundary;
    UpToFirst(s, pos, find, repl);
    var b := Boundary(s, pos, find, 0);
    var rest := Replaced(s, b, find, repl);
    assert s[..b] == s[..pos] + s[pos..b];
    assert mem[..b + |rest|] == mem[..b] + mem[b..b + |rest|];
  }

  /** All matches, and behind them the length of the string. */
  ghost predicate MatchTable(slots: seq<nat>, s: Text, pos: nat, find: Text)
    ensures MatchTable(slots, s, pos, find) ==> pos <= |s| && find != []
  {
    pos <= |s| && find != [] && slots == Matches(s, pos, find) + [|s|]
  }

  lemma Slot(s: Text, pos: nat, find: Text, slots: seq<nat>, k: nat)
    requires MatchTable(slots, s, pos, find) && k < |slots|
    ensures pos <= |s| && find != [] && |slots| == |Matches(s, pos, find)| + 1
    ensures slots[k] == Boundary(s, pos, find, k)
    ensures k == |slots| - 1 ==> slots[k] == |s|
  {
  }

  lemma NextPiece(s: Text, start: nat, find: Text, repl: Text, slots: seq<nat>, i: nat, acc: nat, mem: Text)
    requires MatchTable(slots, s, start, find) && i + 1 < |slots|
    requires Spread(s, find, repl, Boundary(s, start, find, i + 1), acc, mem)
    ensures i < |Matches(s, start, find)|
    ensures slots[i] == Boundary(s, start, find, i) && slots[i + 1] == Boundary(s, start, find, i + 1)
    ensures slots[i] + |find| <= slots[i + 1] <= |s| && slots[i + 1] + acc <= |mem|
    ensures Replaced(s, slots[i], find, repl)
         == repl + s[slots[i] + |find|..slots[i + 1]] + Replaced(s, slots[i + 1], find, repl)
  {
    Slot(s, start, find, slots, i);
    Slot(s, start, find, slots, i + 1);
    UpToNext(s, start, find, repl, i);
  }

  /** The pieces move up, the last one first; d lists the matches and the end of the string s. */
  method SpreadAll(a: array<byte>, d: array<nat>, n: nat, room: nat, flen: nat, repl: Text,
                   ghost s: Text, ghost start: nat, ghost find: Text)
    requires 0 < flen == |find| < |repl|
    requires n < d.Length && MatchTable(d[..n + 1], s, start, find)
    requires room == Times(n, |repl| - flen) && |s| + room <= a.Length && a[..|s|] == s
    modifies a
    ensures Spread(s, find, repl, Boundary(s, start, find, 0), 0, a[..])
  {
    hide OccursAt, Replaced, Matches, Boundary, Spread, MatchTable;
    ghost var mem, slots := a[..], d[..n + 1];
    var acc, i := room, n;
    Slot(s, start, find, slots, n);
    SpreadFirst(s, find, repl, acc, mem);
    while i > 0
      invariant 0 <= i <= n && acc == Times(i, |repl| - flen)
      invariant mem == a[..]
      invariant Spread(s, find, repl, Boundary(s, start, find, i), acc, mem)
    {
      i := i - 1;
      NextPiece(s, start, find, repl, slots, i, acc, mem);
      assert d[i] == slots[i] && d[i + 1] == slots[i + 1];
      acc := SpreadOne(a, d[i], d[i + 1], acc, flen, repl, s, find);
      mem := a[..];
    }
  }

  /** The piece between two matches and the replacement of the first one. */
  method SpreadOne(a: array<byte>, lo: nat, hi: nat, acc: nat, flen: nat, repl: Text, ghost s: Text, ghost find: Text)
    returns (acc': nat)
    requires 0 < flen == |find| < |repl| <= flen + acc && lo + flen <= hi <= |s| && hi + acc <= a.Length
    requires Replaced(s, lo, find, repl) == repl + s[lo + flen..hi] + Replaced(s, hi, find, repl)
    requires Spread(s, find, repl, hi, acc, a[..])
    modifies a
    ensures acc' == acc - (|repl| - flen) && Spread(s, find, repl, lo, acc', a[..])
  {
    hide Replaced, Spread;
    ghost var mem := a[..];
    SpreadPiece(a, lo + flen, hi - (lo + flen), acc, repl);
    ghost var next := a[..];
    acc' := acc - (|repl| - flen);
    assert next[..lo + acc'] == mem[..lo + acc'] && next[hi + acc..] == mem[hi + acc..];
    assert next[lo + acc'..hi + acc] == repl + mem[lo + flen..hi];
    SpreadNext(s, find, repl, lo, hi, acc, mem, acc', next);
  }

  /** Replacement by a longer string: all matches are found first, then the string grows once. */
  method ReplaceExpanding(b: Bstring, find: Bstring, repl: Bstring, start: nat)
    requires b.Valid() && find.Valid() && repl.Valid()
    requires b != find && b != repl && b.data != find.data && b.data != repl.data
    requires 0 < find.slen < repl.slen && start + find.slen <= b.slen
    modifies b, b.data
    ensures b.Valid() && b.Terminated() && (b.data == old(b.data) || fresh(b.data))
    ensures b.Contents() == ReplaceAll(old(b.Contents()), start, find.Contents(), repl.Contents())
  {
    hide OccursAt, ReplaceAll, Matches, MatchTable, Spread, Boundary, Times;
    ghost var s, f := b.Contents(), find.Contents();
    var r := repl.data[..repl.slen];
    var d, n, acc := FindAll(b, find, start, repl.slen - find.slen);
    TimesIsProduct(n, |r| - |f|);
    ReplaceAllLength(s, start, f, r);
    var _ := b.Alloc(b.slen + acc + 1);
    SpreadAll(b.data, d, n, acc, find.slen, r, s, start, f);
    SpreadEnd(s, f, r, start, b.data[..]);
    b.slen := b.slen + acc;
    b.data[b.slen] := 0;
  }

  /** findreplaceengine, with binstr as its search: every match from pos on is replaced in place. */
  method BfindReplace(b: Bstring, find: Bstring, repl: Bstring, pos: int) returns (ret: int)
    requires b.Valid() && find.Valid() && repl.Valid()
    requires (b == find || b.data != find.data) && (b == repl || b.data != repl.data)
    modifies b, b.data
    ensures b.Valid() && (b.data == old(b.data) || fresh(b.data)) && (old(b.Terminated()) ==> b.Terminated())
    ensures ret == if pos < 0 || old(find.slen) == 0 then BSTR_ERR else BSTR_OK
    ensures b.Contents() == if ret == BSTR_ERR then old(b.Contents())
                            else ReplaceAll(old(b.Contents()), pos, old(find.Contents()), old(repl.Contents()))
  {
    hide Replaced;
    if pos < 0 || find.slen <= 0 {
      return BSTR_ERR;
    }
    if pos > b.slen - find.slen {
      return BSTR_OK;
    }
    var auxf, auxr := find, repl;
    // Alias with find string
    if find == b && pos - find.slen < 0 {
      auxf := new Bstring(find.data[..find.slen]);
    }
    // Alias with repl string
    if repl == b && pos - repl.slen < 0 {
      auxr := new Bstring(repl.data[..repl.slen]);
    }
    ReplaceApart(b, auxf, auxr, pos);
    return BSTR_OK;
  }

  /** The three strategies, for operands that are not the string itself. */
  method ReplaceApart(b: Bstring, find: Bstring, repl: Bstring, pos: nat)
    requires b.Valid() && find.Valid() && repl.Valid() && find.slen > 0 && pos + find.slen <= b.slen
    requires b != find && b != repl && b.data != find.data && b.data != repl.data
    modifies b, b.data
    ensures b.Valid() && (b.data == old(b.data) || fresh(b.data)) && (old(b.Terminated()) ==> b.Terminated())
    ensures b.Contents() == ReplaceAll(old(b.Contents()), pos, find.Contents(), repl.Contents())
  {
    hide Replaced;
    var delta := find.slen - repl.slen;
    if delta == 0 {
      ReplaceEqual(b, find, repl, pos);
    } else if delta > 0 {
      ReplaceShrinking(b, find, repl, pos);
    } else {
      ReplaceExpanding(b, find, repl, pos);
    }
  }
}
