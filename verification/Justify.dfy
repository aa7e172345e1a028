/** Left and margin justification of a line of words. */
module Justify {
  import opened Bytes
  import opened Bstrings
  import opened Split

  /** The entries that are not empty, in order. */
  function NonEmpty(entries: seq<Text>): (r: seq<Text>)
    ensures |r| <= |entries| && forall w :: w in r <==> w in entries && w != []
  {
    if entries == [] then []
    else
      assert entries == entries[..|entries| - 1] + [entries[|entries| - 1]];
      var e := entries[|entries| - 1];
      NonEmpty(entries[..|entries| - 1]) + if e == [] then [] else [e]
  }

  /** So nothing but the empty entries is left out, and the order stays. */
  lemma {:induction false} NonEmptyAppend(front: seq<Text>, back: seq<Text>)
    ensures NonEmpty(front + back) == NonEmpty(front) + NonEmpty(back)
    decreases |back|
  {
    hide NonEmpty;
    if back == [] {
      assert front + back == front && NonEmpty(front) + [] == NonEmpty(front);
    } else {
      var n := |back| - 1;
      NonEmptyAppend(front, back[..n]);
      NonEmptySnoc(front + back[..n], back[n]);
      NonEmptySnoc(back[..n], back[n]);
      assert front + back == front + back[..n] + [back[n]] && back == back[..n] + [back[n]];
    }
  }

  /** The words of a line: what is left between its spaces. */
  function Words(s: Text, c: byte): seq<Text> {
    NonEmpty(SplitAt(s, c))
  }

  /** The words with gaps[k] spaces between words k and k + 1. */
  function Spread(words: seq<Text>, gaps: seq<nat>, c: byte): Text
    requires |words| == |gaps| + 1
  {
    if gaps == [] then words[0]
    else
      var n := |gaps| - 1;
      Spread(words[..n + 1], gaps[..n], c) + Repeat(c, gaps[n]) + words[n + 1]
  }

  function Sum(gaps: seq<nat>): nat {
    if gaps == [] then 0 else Sum(gaps[..|gaps| - 1]) + gaps[|gaps| - 1]
  }

  /** The gap that room and c gaps to go give: the share, rounded to the nearest number. */
  function Rounded(room: nat, c: nat): (s: nat)
    requires c > 0
    ensures s <= room
    ensures room >= c ==> s >= 1 && room - s >= c - 1
  {
    RoundedFits(room, c);
    (room + c / 2) / c
  }

  /** The gaps that room is given to, one after the other. */
  function Gaps(room: nat, c: nat): (gaps: seq<nat>)
    ensures |gaps| == c
    decreases c
  {
    if c == 0 then []
    else
      var s := Rounded(room, c);
      [s] + Gaps(room - s, c - 1)
  }

  // ----- the gaps are even and use up the room

  /** The gaps of an even distribution of room over |gaps| gaps: the share rounded down, or one more. */
  ghost predicate Even(gaps: seq<nat>, share: int) {
    forall i :: 0 <= i < |gaps| ==> gaps[i] == share || gaps[i] == share + 1
  }

  /** The next gap, as the room is rounded: what is left stays below one more for each gap that is left. */
  lemma RoundedGap(room: int, c: int, share: nat, over: int)
    requires c > 0 && room == share * c + over && 0 <= over < c
    ensures var s: int := (room + c / 2) / c;
            && (s == share || s == share + 1)
            && var over' := over - (s - share);
            && room - s == share * (c - 1) + over'
            && (if c == 1 then over' == 0 else 0 <= over' < c - 1)
  {
    var s := (room + c / 2) / c;
    var rest := over + c / 2;
    assert room + c / 2 == share * c + rest;
    if rest < c {
      Quotient(room + c / 2, c, share, rest);
    } else {
      assert (share + 1) * c == share * c + c;
      Quotient(room + c / 2, c, share + 1, rest - c);
    }
    assert share * (c - 1) == share * c - share;
  }

  lemma Quotient(a: int, c: int, q: int, r: int)
    requires c > 0 && a == q * c + r && 0 <= r < c
    ensures a / c == q && a % c == r
  {
    Multiple(a / c - q, c);
    assert (a / c - q) * c == r - a % c;
  }

  lemma Multiple(d: int, c: int)
    requires c > 0
    ensures d >= 1 ==> d * c >= c
    ensures d <= -1 ==> d * c <= -c
  {
    if d >= 1 {
      assert (d - 1) * c >= 0;
    } else if d <= -1 {
      assert (-d - 1) * c >= 0;
    }
  }

  lemma ShareIsPositive(room: int, gaps: int)
    requires 0 < gaps <= room
    ensures room / gaps >= 1
  {
  }

  lemma RoundedFits(room: nat, c: nat)
    requires c > 0
    ensures var s := (room + c / 2) / c;
            && 0 <= s <= room
            && (room >= c ==> s >= 1 && room - s >= c - 1)
  {
    var share, over := room / c, room % c;
    RoundedGap(room, c, share, over);
    Product(share, c - 1);
    if room >= c {
      ShareIsPositive(room, c);
      AtLeastOnce(share, c - 1);
    }
  }

  /** No whole number is nearer to the share than the rounded one; of two that are equally near it is the upper one. */
  lemma RoundedIsNearest(room: nat, c: nat)
    requires c > 0
    ensures 2 * room - c < 2 * (Rounded(room, c) * c) <= 2 * room + c
  {
    QuotientTimes(room + c / 2, c);
  }

  lemma QuotientTimes(a: nat, c: nat)
    requires c > 0
    ensures a == a / c * c + a % c
  {
  }

  lemma {:induction false} GapIsNearest(room: nat, c: nat, k: nat)
    requires k < c
    ensures var gaps := Gaps(room, c);
            var left: int, togo: int := room - Sum(gaps[..k]), c - k;
            2 * left - togo < 2 * (gaps[k] * togo) <= 2 * left + togo
    decreases c
  {
    hide Rounded;
    var s := Rounded(room, c);
    var gaps, rest := Gaps(room, c), Gaps(room - s, c - 1);
    RoundedIsNearest(room, c);
    if k > 0 {
      GapIsNearest(room - s, c - 1, k - 1);
      assert gaps[..k] == [s] + rest[..k - 1];
      SumCons(s, rest[..k - 1]);
    }
  }

  lemma AtLeastOnce(x: nat, y: nat)
    requires x >= 1
    ensures x * y >= y
  {
    Product(x - 1, y);
    assert x * y == (x - 1) * y + y;
  }

  lemma Product(x: nat, y: nat)
    ensures x * y >= 0
  {
  }

  lemma {:induction false} GapsAreEven(room: nat, c: nat, share: nat, over: int)
    requires room == share * c + over && if c == 0 then over == 0 else 0 <= over < c
    ensures Even(Gaps(room, c), share) && Sum(Gaps(room, c)) == room
    decreases c
  {
    hide Rounded;
    if c > 0 {
      RoundedTo(room, c, share, over);
      var s := Rounded(room, c);
      GapsAreEven(room - s, c - 1, share, over - (s - share));
      SumCons(s, Gaps(room - s, c - 1));
    }
  }

  lemma {:induction false} SumCons(g: nat, gaps: seq<nat>)
    ensures Sum([g] + gaps) == g + Sum(gaps)
    decreases |gaps|
  {
    if gaps == [] {
      assert [g] + gaps == [g];
      assert Sum([g][..0]) == 0;
    } else {
      SumCons(g, gaps[..|gaps| - 1]);
      assert ([g] + gaps)[..|gaps|] == [g] + gaps[..|gaps| - 1];
    }
  }

  lemma RoundedTo(room: nat, c: nat, share: nat, over: int)
    requires c > 0 && room == share * c + over && 0 <= over < c
    ensures var s := Rounded(room, c);
            && (s == share || s == share + 1)
            && var over' := over - (s - share);
            && room - s == share * (c - 1) + over'
            && (if c == 1 then over' == 0 else 0 <= over' < c - 1)
  {
    RoundedGap(room, c, share, over);
  }

  /** The gaps use up the room, each has one space at least, and no two of them differ by more than one. */
  ghost predicate Fair(gaps: seq<nat>, room: nat) {
    && Sum(gaps) == room
    && (forall i :: 0 <= i < |gaps| ==> gaps[i] >= 1)
    && forall i, k :: 0 <= i < |gaps| && 0 <= k < |gaps| ==> gaps[i] <= gaps[k] + 1
  }

  /** Each gap is the whole number that is nearest to an even share of the room that the gaps before it have left. */
  ghost predicate Nearest(gaps: seq<nat>, room: nat) {
    forall k :: 0 <= k < |gaps| ==>
      var left: int, togo: int := room - Sum(gaps[..k]), |gaps| - k;
      2 * left - togo < 2 * (gaps[k] * togo) <= 2 * left + togo
  }

  lemma GapsAreNearest(room: nat, n: nat)
    ensures Nearest(Gaps(room, n), room)
  {
    hide Gaps, Sum;
    forall k | 0 <= k < n
      ensures var gaps := Gaps(room, n);
              var left: int, togo: int := room - Sum(gaps[..k]), n - k;
              2 * left - togo < 2 * (gaps[k] * togo) <= 2 * left + togo
    {
      GapIsNearest(room, n, k);
    }
  }

  lemma GapsAreFair(room: nat, n: nat)
    requires 0 < n <= room
    ensures Fair(Gaps(room, n), room)
  {
    hide Gaps, Sum;
    ShareIsPositive(room, n);
    GapsAreEven(room, n, room / n, room % n);
  }

  // ----- splitting a string that grows at its end

  /** The pieces after one more character. */
  function Grown(entries: seq<Text>, x: byte, c: byte): seq<Text>
    requires entries != []
  {
    if x == c then entries + [[]]
    else entries[..|entries| - 1] + [entries[|entries| - 1] + [x]]
  }

  lemma GrownCons(e: Text, rest: seq<Text>, x: byte, c: byte)
    ensures Grown([e] + rest, x, c) == if rest != [] then [e] + Grown(rest, x, c)
                                       else if x == c then [e] + [[]] else [e + [x]]
  {
  }

  lemma {:induction false} PiecesSnoc(s: Text, x: byte, p: nat, c: byte)
    requires p <= |s|
    ensures Texts(Pieces(s, p, {c})) != []
    ensures Texts(Pieces(s + [x], p, {c})) == Grown(Texts(Pieces(s, p, {c})), x, c)
    decreases |s| - p
  {
    hide NextBreak, Pieces, Texts, Grown;
    var i, t := NextBreak(s, p, {c}), s + [x];
    NextPiece(s, p, {c});
    NextPiece(t, p, {c});
    BreakSnoc(s, x, p, c);
    if i < |s| {
      PiecesSnoc(s, x, i + 1, c);
      GrownCons(s[p..i], Texts(Pieces(s, i + 1, {c})), x, c);
    } else {
      GrownCons(s[p..i], [], x, c);
      if x == c {
        NextPiece(t, i + 1, {c});
        assert t[i + 1..|t|] == [];
      }
    }
  }

  lemma BreakSnoc(s: Text, x: byte, p: nat, c: byte)
    requires p <= |s|
    ensures var i, t := NextBreak(s, p, {c}), s + [x];
            && t[p..i] == s[p..i]
            && (i == |s| && x != c ==> t[p..i + 1] == s[p..i] + [x])
            && NextBreak(t, p, {c}) == if i == |s| && x != c then i + 1 else i
  {
    hide NextBreak;
    var i, t := NextBreak(s, p, {c}), s + [x];
    NextBreakIs(t, p, {c}, if i == |s| && x != c then i + 1 else i);
  }

  lemma SplitSnoc(s: Text, x: byte, c: byte)
    ensures SplitAt(s, c) != []
    ensures SplitAt(s + [x], c) == Grown(SplitAt(s, c), x, c)
  {
    PiecesSnoc(s, x, 0, c);
  }

  lemma NonEmptySnoc(entries: seq<Text>, e: Text)
    ensures NonEmpty(entries + [e]) == NonEmpty(entries) + if e == [] then [] else [e]
  {
    assert (entries + [e])[..|entries|] == entries;
  }

  // ----- what the words of a spread line are

  lemma {:induction false} SpacesSnoc(s: Text, c: byte, n: nat)
    ensures Words(s + Repeat(c, n), c) == Words(s, c)
    ensures n > 0 ==> var es := SplitAt(s + Repeat(c, n), c); es != [] && es[|es| - 1] == []
  {
    hide SplitAt, NonEmpty;
    if n == 0 {
      assert s + Repeat(c, n) == s;
    } else {
      SpacesSnoc(s, c, n - 1);
      var t := s + Repeat(c, n - 1);
      assert s + Repeat(c, n) == t + [c];
      SplitSnoc(t, c, c);
      NonEmptySnoc(SplitAt(t, c), []);
    }
  }

  lemma {:induction false} WordSnoc(s: Text, c: byte, w: Text)
    requires c !in w
    ensures var es := SplitAt(s, c);
            es != [] && SplitAt(s + w, c) == es[..|es| - 1] + [es[|es| - 1] + w]
    decreases |w|
  {
    hide SplitAt;
    if w == [] {
      assert s + w == s;
      SplitSnoc(s, c, c);
      var es := SplitAt(s, c);
      assert es[|es| - 1] + w == es[|es| - 1];
    } else {
      var v, x := w[..|w| - 1], w[|w| - 1];
      WordSnoc(s, c, v);
      assert s + w == (s + v) + [x] && w == v + [x];
      SplitSnoc(s + v, x, c);
      var es := SplitAt(s, c);
      assert es[|es| - 1] + w == es[|es| - 1] + v + [x];
    }
  }

  lemma NextWord(s: Text, c: byte, n: nat, w: Text)
    requires c !in w && w != [] && (n > 0 || s == [])
    ensures Words(s + Repeat(c, n) + w, c) == Words(s, c) + [w]
  {
    hide SplitAt, NonEmpty;
    var t := s + Repeat(c, n);
    SpacesSnoc(s, c, n);
    WordSnoc(t, c, w);
    var es := SplitAt(t, c);
    var front := es[..|es| - 1];
    if n == 0 {
      assert t == [];
      SplitOfEmpty(c);
    }
    assert es[|es| - 1] + w == w;
    assert es == front + [[]];
    NonEmptySnoc(front, []);
    NonEmptySnoc(front, w);
  }

  lemma SplitOfEmpty(c: byte)
    ensures SplitAt([], c) == [[]]
    ensures Words([], c) == []
  {
    NextPiece([], 0, {c});
    NonEmptySnoc([], []);
    var none: seq<Text> := [];
    assert none + [[]] == [[]];
  }

  /** However the words are spread, they stay the words of the line. */
  lemma {:induction false} WordsOfSpread(words: seq<Text>, gaps: seq<nat>, c: byte)
    requires |words| == |gaps| + 1
    requires forall i :: 0 <= i < |words| ==> words[i] != [] && c !in words[i]
    requires forall i :: 0 <= i < |gaps| ==> gaps[i] > 0
    ensures Words(Spread(words, gaps, c), c) == words
    decreases |gaps|
  {
    hide Words;
    if gaps == [] {
      NextWord([], c, 0, words[0]);
      assert [] + Repeat(c, 0) + words[0] == words[0];
      SplitOfEmpty(c);
    } else {
      var n := |gaps| - 1;
      WordsOfSpread(words[..n + 1], gaps[..n], c);
      NextWord(Spread(words[..n + 1], gaps[..n], c), c, gaps[n], words[n + 1]);
      assert words == words[..n + 1] + [words[n + 1]];
    }
  }

  lemma {:induction false} SpreadLength(words: seq<Text>, gaps: seq<nat>, c: byte)
    requires |words| == |gaps| + 1
    ensures |Spread(words, gaps, c)| == TotalLength(words) + Sum(gaps)
    decreases |gaps|
  {
    if gaps == [] {
      assert words == [words[0]] && TotalLength(words[1..]) == 0;
    } else {
      var n := |gaps| - 1;
      SpreadLength(words[..n + 1], gaps[..n], c);
      TotalLengthSnoc(words[..n + 1], words[n + 1]);
      assert words == words[..n + 1] + [words[n + 1]];
    }
  }

  /** Word k stands behind the words and the gaps before it, and between the words there is nothing but spaces. */
  lemma {:induction false} WordStands(words: seq<Text>, gaps: seq<nat>, c: byte, k: nat)
    requires |words| == |gaps| + 1 && k < |words|
    ensures var line, at := Spread(words, gaps, c), TotalLength(words[..k]) + Sum(gaps[..k]);
            && at + |words[k]| <= |line| && line[at..at + |words[k]|] == words[k]
            && (k > 0 ==> at >= gaps[k - 1] && line[at - gaps[k - 1]..at] == Repeat(c, gaps[k - 1]))
    decreases |gaps|
  {
    hide Spread, TotalLength, Sum;
    if gaps == [] {
      OneWord(words, c);
      assert words[..0] == [] && gaps[..0] == [];
    } else {
      var n := |gaps| - 1;
      var front, behind := Spread(words[..n + 1], gaps[..n], c), Repeat(c, gaps[n]) + words[n + 1];
      assert words == words[..n + 1] + [words[n + 1]] && gaps == gaps[..n] + [gaps[n]];
      SpreadSnoc(words[..n + 1], gaps[..n], words[n + 1], gaps[n], c);
      assert front + behind == front + Repeat(c, gaps[n]) + words[n + 1];
      if k <= n {
        WordStands(words[..n + 1], gaps[..n], c, k);
        assert words[..n + 1][..k] == words[..k] && gaps[..n][..k] == gaps[..k];
        assert k > 0 ==> gaps[..n][k - 1] == gaps[k - 1];
        var at := TotalLength(words[..k]) + Sum(gaps[..k]);
        InFront(front, behind, at, at + |words[k]|);
        if k > 0 {
          InFront(front, behind, at - gaps[k - 1], at);
        }
      } else {
        SpreadLength(words[..n + 1], gaps[..n], c);
        assert gaps[..k] == gaps && words[..k] == words[..n + 1];
        InThreeParts(front, Repeat(c, gaps[n]), words[k]);
      }
    }
  }

  lemma OneWord(words: seq<Text>, c: byte)
    requires |words| == 1
    ensures Spread(words, [], c) == words[0] && TotalLength([]) == 0 && Sum([]) == 0
  {
  }

  lemma InFront(front: Text, behind: Text, i: nat, j: nat)
    requires i <= j <= |front|
    ensures (front + behind)[i..j] == front[i..j]
  {
  }

  lemma InThreeParts(a: Text, b: Text, t: Text)
    ensures (a + (b + t))[|a|..|a| + |b|] == b
    ensures (a + (b + t))[|a| + |b|..|a| + |b| + |t|] == t
  {
  }

  lemma SpreadSnoc(words: seq<Text>, gaps: seq<nat>, w: Text, g: nat, c: byte)
    requires |words| == |gaps| + 1
    ensures Spread(words + [w], gaps + [g], c) == Spread(words, gaps, c) + Repeat(c, g) + w
    ensures Sum(gaps + [g]) == Sum(gaps) + g
  {
    assert (gaps + [g])[..|gaps|] == gaps && (words + [w])[..|words|] == words;
  }

  // ----- the methods

  /** (unsigned char) space */
  function UnsignedChar(space: int): (c: byte)
    ensures 0 <= space < 256 ==> c == space
    ensures (space - c) % 256 == 0
  {
    space % 256
  }

  /** What the loop of bJustifyLeft has kept of a line with these pieces: a space is held back for the next word. */
  function Squeezed(entries: seq<Text>, c: byte): Text
    requires entries != []
  {
    var line := Join(NonEmpty(entries), [c]);
    line + if entries[|entries| - 1] == [] && line != [] then [c] else []
  }

  lemma JoinOfWords(words: seq<Text>, w: Text, c: byte)
    requires forall v :: v in words ==> v != []
    ensures Join(words + [w], [c]) == (if words == [] then [] else Join(words, [c]) + [c]) + w
    ensures words != [] ==> Join(words, [c]) != []
  {
    if words == [] {
      assert words + [w] == [w];
    } else {
      JoinSnoc(words, w, [c]);
      assert words[0] in words;
    }
  }

  lemma SqueezedStep(entries: seq<Text>, x: byte, c: byte)
    requires entries != []
    ensures var t, s := entries[|entries| - 1] != [], x != c;
            Squeezed(Grown(entries, x, c), c) == Squeezed(entries, c) + if t || s then [x] else []
  {
    hide Join, NonEmpty;
    var front, e := entries[..|entries| - 1], entries[|entries| - 1];
    assert entries == front + [e];
    NonEmptySnoc(front, e);
    var words := NonEmpty(front);
    JoinOfWords(words, e, c);
    if x == c {
      NonEmptySnoc(entries, []);
      var line := Join(NonEmpty(entries), [c]);
      assert NonEmpty(entries) + [] == NonEmpty(entries) && line + [] == line;
      assert Squeezed(entries, c) + [] == Squeezed(entries, c);
    } else {
      NonEmptySnoc(front, e + [x]);
      JoinOfWords(words, e + [x], c);
      JoinIsEmptyOnly(words, c);
      assert words + [] == words;
    }
  }

  lemma JoinIsEmptyOnly(words: seq<Text>, c: byte)
    ensures words == [] ==> Join(words, [c]) == []
  {
  }

  /** bJustifyLeft, which leaves the string alone if space is no unsigned char. */
  method JustifyLeft(b: Bstring, space: int) returns (ret: int)
    requires b.Valid()
    modifies b, b.data
    ensures b.Valid() && b.data == old(b.data) && ret == BSTR_OK
    ensures var c := UnsignedChar(space);
            if space == c then b.Terminated() && b.Contents() == Join(Words(old(b.Contents()), c), [c])
            else b.slen == old(b.slen) && b.Contents() == old(b.Contents())
  {
    var c := UnsignedChar(space);
    if space != c {
      return BSTR_OK;
    }
    hide SplitAt, Squeezed, NonEmpty, Join;
    ghost var es := SplitAt(b.Contents(), c);
    var j := Squeeze(b, c);
    ghost var got := b.data[..j];
    SqueezedEnd(es, c);
    if j > 0 && b.data[j - 1] == c {
      j := j - 1;
    }
    assert b.data[..j] == got[..j];
    b.data[j] := 0;
    b.slen := j;
    assert b.Contents() == got[..j];
    return BSTR_OK;
  }

  /** The loop: a space stays if it follows a character that is none. */
  method Squeeze(b: Bstring, c: byte) returns (j: nat)
    requires b.Valid()
    modifies b.data
    ensures j <= b.slen
    ensures var es := SplitAt(old(b.Contents()), c);
            && es != [] && b.data[..j] == Squeezed(es, c)
            && (j > 0 ==> ((es[|es| - 1] == []) <==> b.data[j - 1] == c))
  {
    hide SplitAt, Squeezed, NonEmpty, Join;
    ghost var text := b.Contents();
    ghost var es := SplitAt([], c);
    SplitOfEmpty(c);
    SqueezedOfEmpty(c);
    var i: nat, s: bool := 0, false;
    j := 0;
    while i < b.slen
      invariant j <= i <= b.slen && b.data[i..b.slen] == text[i..]
      invariant es == SplitAt(text[..i], c) && es != [] && b.data[..j] == Squeezed(es, c)
      invariant s == (es[|es| - 1] != []) && (j > 0 ==> s == (b.data[j - 1] != c)) && (s ==> j > 0)
    {
      ghost var x, got := text[i], b.data[..j];
      SplitSnoc(text[..i], x, c);
      SqueezedStep(es, x, c);
      assert text[..i + 1] == text[..i] + [x];
      assert b.data[i] == b.data[i..b.slen][0] == x;
      var t := s;
      b.data[j] := b.data[i];
      s := c != b.data[j];
      es := Grown(es, x, c);
      assert b.data[..j] == got && b.data[..j + 1] == got + [x];
      j := if t || s then j + 1 else j;
      i := i + 1;
    }
    assert text[..i] == text;
  }

  lemma SqueezedOfEmpty(c: byte)
    ensures Squeezed([[]], c) == []
  {
    NonEmptySnoc([], []);
    var none: seq<Text> := [];
    assert none + [[]] == [[]];
  }

  lemma SqueezedEnd(es: seq<Text>, c: byte)
    requires es != []
    ensures var got, line := Squeezed(es, c), Join(NonEmpty(es), [c]);
            if es[|es| - 1] == [] && got != [] then got[..|got| - 1] == line else got == line
  {
    hide Join, NonEmpty;
  }

  /** bInsertChrs; past the end of the string, fill comes between. */
  method InsertChrs(b: Bstring, pos: int, len: int, c: byte, fill: byte) returns (ret: int)
    requires b.Valid()
    modifies b, b.data
    ensures b.Valid() && (b.data == old(b.data) || fresh(b.data))
    ensures ret == if pos < 0 || len <= 0 then BSTR_ERR else BSTR_OK
    ensures ret == BSTR_ERR ==> b.Contents() == old(b.Contents())
    ensures ret == BSTR_OK ==>
              b.Contents() == if pos > old(b.slen)
                              then old(b.Contents()) + Repeat(fill, pos - old(b.slen)) + Repeat(c, len)
                              else old(b.Contents())[..pos] + Repeat(c, len) + old(b.Contents())[pos..]
  {
    if pos < 0 || len <= 0 {
      return BSTR_ERR;
    }
    if pos > b.slen {
      b.CatBlk(Repeat(fill, pos - b.slen));
    }
    ghost var before := b.Contents();
    b.InsertInside(pos, Repeat(c, len));
    assert pos == |before| ==> before[..pos] == before && before[pos..] == [];
    return BSTR_OK;
  }

  /** Number and total length of the entries that are not empty. */
  method CountWords(entries: seq<Text>) returns (c: nat, l: nat)
    ensures c == |NonEmpty(entries)| && l == TotalLength(NonEmpty(entries))
  {
    hide TotalLength;
    c, l := 0, 0;
    assert TotalLength([]) == 0 by {
      NoEntries();
    }
    for i := 0 to |entries|
      invariant c == |NonEmpty(entries[..i])| && l == TotalLength(NonEmpty(entries[..i]))
    {
      NonEmptySnoc(entries[..i], entries[i]);
      TotalLengthSnoc(NonEmpty(entries[..i]), entries[i]);
      assert entries[..i + 1] == entries[..i] + [entries[i]];
      assert NonEmpty(entries[..i]) + [] == NonEmpty(entries[..i]);
      if |entries[i]| > 0 {
        c := c + 1;
        l := l + |entries[i]|;
      }
    }
    assert entries[..|entries|] == entries;
  }

  lemma NoEntries()
    ensures TotalLength([]) == 0
  {
  }

  /** What is on the line: these words with these gaps. */
  ghost predicate Line(line: Text, words: seq<Text>, gaps: seq<nat>, space: byte) {
    if line == [] then words == [] && gaps == []
    else |words| == |gaps| + 1 && line == Spread(words, gaps, space)
  }

  /** One word goes to the end of the line, behind its gap if it is not the first. */
  method AddWord(b: Bstring, w: Text, width: int, l: int, c: int, space: byte,
                 ghost done: seq<Text>, ghost gaps: seq<nat>)
    returns (l': int, ghost gaps': seq<nat>)
    requires b.Valid() && w != [] && c > 0 && l + c <= width && Line(b.Contents(), done, gaps, space)
    modifies b, b.data
    ensures b.Valid() && (b.data == old(b.data) || fresh(b.data))
    ensures Line(b.Contents(), done + [w], gaps', space)
    ensures if done == [] then l' == l && gaps' == []
            else var s := Rounded(width - l, c); l' == l + s && gaps' == gaps + [s]
  {
    hide Spread, Sum, Repeat, Rounded;
    l', gaps' := l, gaps;
    if b.slen > 0 {
      var s := Rounded(width - l, c);
      ghost var line := b.Contents();
      var _ := InsertChrs(b, b.slen, s, space, space);
      assert line[..|line|] == line && line[|line|..] == [] && line + Repeat(space, s) + [] == line + Repeat(space, s);
      SpreadSnoc(done, gaps, w, s, space);
      gaps' := gaps + [s];
      l' := l + s;
    } else {
      SpreadOne(w, space);
      assert done + [w] == [w] && b.Contents() + w == w;
    }
    b.CatBlk(w);
  }

  /** The loop that puts the line together again. */
  method Stretch(b: Bstring, entries: seq<Text>, width: int, length: nat, count: nat, space: byte)
    requires b.Valid() && b.slen == 0
    requires count == |NonEmpty(entries)| >= 2 && length == TotalLength(NonEmpty(entries))
    requires length + count < width
    modifies b, b.data
    ensures b.Valid() && (b.data == old(b.data) || fresh(b.data))
    ensures b.Contents() == Spread(NonEmpty(entries), Gaps(width - length, count - 1), space)
  {
    hide NonEmpty, Spread, Sum, Repeat, Rounded;
    var l: int, c: int := length, count;
    ghost var words, gaps, all := NonEmpty(entries), [], Gaps(width - length, count - 1);
    assert words[..0] == [] && entries[..0] == [] && NonEmpty([]) == [] by {
      NothingYet();
    }
    var i: nat := 0;
    while i < |entries| && c > 0
      invariant i <= |entries| && b.Valid() && (b.data == old(b.data) || fresh(b.data))
      invariant 0 <= c <= count && NonEmpty(entries[..i]) == words[..count - c]
      invariant Line(b.Contents(), words[..count - c], gaps, space)
      invariant l + c <= width && if c == count then gaps == [] && l == length else gaps + Gaps(width - l, c) == all
    {
      NonEmptyPrefix(entries, i);
      if |entries[i]| > 0 {
        assert words[..count - c + 1] == words[..count - c] + [entries[i]];
        l, gaps := AddWord(b, entries[i], width, l, c, space, words[..count - c], gaps);
        c := c - 1;
      }
      i := i + 1;
    }
    assert entries[..|entries|] == entries && words[..count] == words;
    assert gaps + [] == gaps;
  }

  lemma NothingYet()
    ensures NonEmpty([]) == [] && Sum([]) == 0
  {
  }

  lemma SpreadOne(w: Text, c: byte)
    ensures Spread([w], [], c) == w
  {
  }

  lemma {:induction false} NonEmptyPrefix(entries: seq<Text>, i: nat)
    requires i < |entries|
    ensures NonEmpty(entries[..i + 1]) == NonEmpty(entries[..i]) + if entries[i] == [] then [] else [entries[i]]
    ensures NonEmpty(entries[..i + 1]) <= NonEmpty(entries)
    decreases |entries| - i
  {
    assert entries[..i + 1] == entries[..i] + [entries[i]];
    NonEmptySnoc(entries[..i], entries[i]);
    if i + 1 < |entries| {
      NonEmptyPrefix(entries, i + 1);
    } else {
      assert entries[..i + 1] == entries;
    }
  }

  /** Whether there is room to stretch the line. */
  predicate Stretches(words: seq<Text>, width: int) {
    TotalLength(words) + |words| < width && |words| >= 2
  }

  function MarginLine(words: seq<Text>, width: int, c: byte): Text {
    if Stretches(words, width) then Spread(words, Gaps(width - TotalLength(words), |words| - 1), c)
    else Join(words, [c])
  }

  lemma MarginIs(words: seq<Text>, width: int, c: byte)
    ensures Stretches(words, width) <==> TotalLength(words) + |words| < width && |words| >= 2
    ensures MarginLine(words, width, c)
         == if Stretches(words, width) then Spread(words, Gaps(width - TotalLength(words), |words| - 1), c)
            else Join(words, [c])
  {
  }

  /** The entries of a line, with those that are empty. */
  method WordsOf(b: Bstring, c: byte) returns (entries: seq<Text>)
    requires b.Valid()
    ensures NonEmpty(entries) == Words(b.Contents(), c)
  {
    hide SplitAt, NonEmpty;
    var sl := new BstrList();
    BSplit(sl, b, c);
    entries := sl.entry;
  }

  /** bJustifyMargin. A line that is too full or has only one word is justified left. */
  method JustifyMargin(b: Bstring, width: int, space: int) returns (ret: int)
    requires b.Valid()
    modifies b, b.data
    ensures b.Valid() && (b.data == old(b.data) || fresh(b.data)) && ret == BSTR_OK
    ensures var c := UnsignedChar(space);
            var words := Words(old(b.Contents()), c);
            b.Contents() == if Stretches(words, width) || space == c then MarginLine(words, width, c)
                            else old(b.Contents())
  {
    var c := UnsignedChar(space);
    ghost var words := Words(b.Contents(), c);
    hide SplitAt, NonEmpty, Join, Spread, TotalLength, Gaps, UnsignedChar, MarginLine, Stretches, Words;
    MarginIs(words, width, c);
    var entries := WordsOf(b, c);
    var count, l := CountWords(entries);
    if l + count >= width || count < 2 {
      ret := JustifyLeft(b, space);
    } else {
      b.slen := 0;
      Stretch(b, entries, width, l, count, c);
      ret := BSTR_OK;
    }
  }

  /** A stretched line has the width exactly, the same words in the same order, and fair gaps. */
  lemma StretchedLine(words: seq<Text>, width: int, c: byte)
    requires forall w :: w in words ==> w != [] && c !in w
    requires Stretches(words, width)
    ensures var line := MarginLine(words, width, c);
            && |line| == width && Words(line, c) == words
            && exists gaps :: |gaps| == |words| - 1 && line == Spread(words, gaps, c)
                              && Fair(gaps, width - TotalLength(words)) && Nearest(gaps, width - TotalLength(words))
  {
    hide Words, Spread, TotalLength, Sum, Gaps, Nearest;
    var room, n := width - TotalLength(words), |words| - 1;
    var gaps := Gaps(room, n);
    GapsAreFair(room, n);
    GapsAreNearest(room, n);
    assert forall i :: 0 <= i < |words| ==> words[i] in words;
    SpreadLength(words, gaps, c);
    WordsOfSpread(words, gaps, c);
  }

  /** The words of any line meet what StretchedLine asks for, and left justification keeps them as well. */
  lemma LeftJustifiedLine(s: Text, c: byte)
    ensures Words(Join(Words(s, c), [c]), c) == Words(s, c)
    ensures forall w :: w in Words(s, c) ==> w != [] && c !in w
  {
    hide SplitAt, Join;
    var words := Words(s, c);
    WordsLackSpace(s, c);
    if words == [] {
      JoinIsEmptyOnly(words, c);
      SplitOfEmpty(c);
    } else {
      SplitJoin(words, c);
      assert forall i :: 0 <= i < |words| ==> words[i] in words;
      AllNonEmpty(words);
    }
  }

  lemma {:induction false} AllNonEmpty(words: seq<Text>)
    requires forall i :: 0 <= i < |words| ==> words[i] != []
    ensures NonEmpty(words) == words
  {
    if words != [] {
      var front, w := words[..|words| - 1], words[|words| - 1];
      assert words == front + [w];
      AllNonEmpty(front);
    }
  }

  lemma WordsLackSpace(s: Text, c: byte)
    ensures forall w :: w in Words(s, c) ==> w != [] && c !in w
  {
    hide NextBreak, Pieces, Texts;
    PiecesLackBreaks(s, 0, c);
  }
}
