/** Splitting a string at single characters, and joining its pieces again. */
module Split {
  import opened Bytes
  import opened Bstrings

  /** The first index from p on whose character is in seps, or the length of s. */
  function NextBreak(s: Text, p: nat, seps: set<byte>): (i: nat)
    requires p <= |s|
    ensures p <= i <= |s|
    ensures forall k :: p <= k < i ==> s[k] !in seps
    ensures i < |s| ==> s[i] in seps
    decreases |s| - p
  {
    if p < |s| && s[p] !in seps then NextBreak(s, p + 1, seps) else p
  }

  /** Offset and text of the pieces of s from p on. */
  function Pieces(s: Text, p: nat, seps: set<byte>): (r: seq<(nat, Text)>)
    requires p <= |s|
    decreases |s| - p
  {
    var i := NextBreak(s, p, seps);
    [(p, s[p..i])] + if i < |s| then Pieces(s, i + 1, seps) else []
  }

  function Texts(pieces: seq<(nat, Text)>): (r: seq<Text>)
    ensures |r| == |pieces|
    ensures forall k :: 0 <= k < |r| ==> r[k] == pieces[k].1
  {
    seq(|pieces|, i requires 0 <= i < |pieces| => pieces[i].1)
  }

  /** The pieces of the whole string. */
  function SplitAt(s: Text, c: byte): seq<Text> {
    Texts(Pieces(s, 0, {c}))
  }

  /** The entries with sep between them. */
  function Join(entries: seq<Text>, sep: Text): Text {
    if entries == [] then []
    else if |entries| == 1 then entries[0]
    else entries[0] + sep + Join(entries[1..], sep)
  }

  // ----- splitting and joining undo each other

  lemma {:induction false} NextBreakIs(s: Text, p: nat, seps: set<byte>, i: nat)
    requires p <= i <= |s|
    requires forall k :: p <= k < i ==> s[k] !in seps
    requires i < |s| ==> s[i] in seps
    ensures NextBreak(s, p, seps) == i
    decreases i - p
  {
    if p < i {
      NextBreakIs(s, p + 1, seps, i);
    }
  }

  lemma NextPiece(s: Text, p: nat, seps: set<byte>)
    requires p <= |s|
    ensures var i := NextBreak(s, p, seps);
            Texts(Pieces(s, p, seps)) == [s[p..i]] + if i < |s| then Texts(Pieces(s, i + 1, seps)) else []
  {
    hide NextBreak, Texts;
    var i := NextBreak(s, p, seps);
    if i < |s| {
      TextsCons(p, s[p..i], Pieces(s, i + 1, seps));
    } else {
      TextsCons(p, s[p..i], []);
    }
  }

  lemma {:induction false} PiecesLackBreaks(s: Text, p: nat, c: byte)
    requires p <= |s|
    ensures forall e :: e in Texts(Pieces(s, p, {c})) ==> c !in e
    decreases |s| - p
  {
    hide NextBreak, Pieces, Texts;
    NextPiece(s, p, {c});
    var i := NextBreak(s, p, {c});
    if i < |s| {
      PiecesLackBreaks(s, i + 1, c);
    }
  }

  lemma TextsCons(p: nat, e: Text, rest: seq<(nat, Text)>)
    ensures Texts([(p, e)] + rest) == [e] + Texts(rest)
    ensures Texts([]) == []
  {
  }

  lemma JoinCons(e: Text, rest: seq<Text>, sep: Text)
    ensures Join([e] + rest, sep) == if rest == [] then e else e + sep + Join(rest, sep)
  {
    assert ([e] + rest)[1..] == rest;
  }

  lemma CutAt(s: Text, p: nat, i: nat)
    requires p <= i < |s|
    ensures s[p..] == s[p..i] + [s[i]] + s[i + 1..]
  {
  }

  lemma {:induction false} JoinPieces(s: Text, p: nat, c: byte)
    requires p <= |s|
    ensures Join(Texts(Pieces(s, p, {c})), [c]) == s[p..]
    decreases |s| - p
  {
    hide NextBreak, Pieces, Join, Texts;
    var i := NextBreak(s, p, {c});
    NextPiece(s, p, {c});
    if i < |s| {
      JoinPieces(s, i + 1, c);
      NextPiece(s, i + 1, {c});
      JoinCons(s[p..i], Texts(Pieces(s, i + 1, {c})), [c]);
      CutAt(s, p, i);
    } else {
      JoinCons(s[p..i], [], [c]);
      assert [s[p..i]] + [] == [s[p..i]];
      assert s[p..i] == s[p..];
    }
  }

  /** Splitting a string and joining the pieces gives the string back. */
  lemma JoinSplit(s: Text, c: byte)
    ensures Join(SplitAt(s, c), [c]) == s
  {
    JoinPieces(s, 0, c);
    assert s[0..] == s;
  }

  lemma {:induction false} PiecesOfJoin(front: Text, entries: seq<Text>, c: byte)
    requires entries != [] && forall e :: e in entries ==> c !in e
    ensures Texts(Pieces(front + Join(entries, [c]), |front|, {c})) == entries
    decreases |entries|
  {
    hide NextBreak, Pieces, Join, Texts;
    var e, rest := entries[0], entries[1..];
    assert e in entries && entries == [e] + rest;
    FirstOfJoin(front, e, rest, c);
    NextPiece(front + Join(entries, [c]), |front|, {c});
    if rest != [] {
      PiecesOfJoin(front + e + [c], rest, c);
    }
  }

  lemma FirstOfJoin(front: Text, e: Text, rest: seq<Text>, c: byte)
    requires c !in e
    ensures var s, i := front + Join([e] + rest, [c]), |front| + |e|;
            && NextBreak(s, |front|, {c}) == i && s[|front|..i] == e
            && if rest == [] then i == |s| else i < |s| && s == front + e + [c] + Join(rest, [c])
  {
    hide NextBreak, Join;
    var joined := Join([e] + rest, [c]);
    JoinCons(e, rest, [c]);
    Behind(front, e, joined[|e|..]);
    assert joined == e + joined[|e|..];
    if rest != [] {
      Regrouped(front, e, [c], Join(rest, [c]));
    }
    NextBreakIs(front + joined, |front|, {c}, |front| + |e|);
  }

  lemma Regrouped(front: Text, e: Text, sep: Text, rest: Text)
    ensures front + (e + sep + rest) == front + e + sep + rest
  {
  }

  lemma Behind(front: Text, e: Text, rest: Text)
    ensures (front + (e + rest))[|front|..|front| + |e|] == e
    ensures forall k :: |front| <= k < |front| + |e| ==> (front + (e + rest))[k] == e[k - |front|]
    ensures rest != [] ==> (front + (e + rest))[|front| + |e|] == rest[0]
  {
  }

  /** Joining entries that lack the separator and splitting the result gives the entries back. */
  lemma SplitJoin(entries: seq<Text>, c: byte)
    requires entries != [] && forall e :: e in entries ==> c !in e
    ensures SplitAt(Join(entries, [c]), c) == entries
  {
    PiecesOfJoin([], entries, c);
    assert [] + Join(entries, [c]) == Join(entries, [c]);
  }

  // ----- the loops

  /** One flag for each character. */
  type CharField = cf: seq<bool> | |cf| == 256 witness seq(256, _ => false)

  ghost predicate Flags(cf: CharField, chars: set<byte>) {
    forall c: byte :: cf[c] <==> c in chars
  }

  method BuildCharField(chars: Text) returns (cf: CharField)
    ensures Flags(cf, CharsOf(chars))
  {
    cf := seq(256, _ => false);
    for i := 0 to |chars|
      invariant forall c: byte :: cf[c] <==> c in chars[..i]
    {
      cf := cf[chars[i] := true];
    }
    assert chars[..|chars|] == chars;
  }

  /** The characters of a text. */
  function CharsOf(t: Text): set<byte> {
    set c | c in t
  }

  /**
    The calls of a callback that gives the answers in turn: it is called for one piece after the other, up to the last
    piece or the first negative answer, and a negative answer is what comes out.
   */
  ghost predicate CalledBack(pieces: seq<(nat, Text)>, answers: nat -> int, calls: seq<(nat, Text)>, ret: int) {
    && calls != [] && calls <= pieces
    && (forall k :: 0 <= k < |calls| - 1 ==> answers(k) >= 0)
    && (calls == pieces || answers(|calls| - 1) < 0)
    && ret == if answers(|calls| - 1) < 0 then answers(|calls| - 1) else BSTR_OK
  }

  lemma CallsAreUnique(pieces: seq<(nat, Text)>, answers: nat -> int, calls: seq<(nat, Text)>, ret: int,
                       calls': seq<(nat, Text)>, ret': int)
    requires CalledBack(pieces, answers, calls, ret) && CalledBack(pieces, answers, calls', ret')
    ensures calls == calls' && ret == ret'
  {
  }

  /**
    bsplitscb, and bsplitcb where splitStr has one character: calls lists offset and entry of each call of the
    callback, whose answers are given.
   */
  method BsplitScb(str: Bstring, splitStr: Text, pos: int, answers: nat -> int)
    returns (ret: int, calls: seq<(nat, Text)>)
    requires str.Valid()
    ensures !(0 <= pos <= str.slen) ==> ret == BSTR_ERR && calls == []
    ensures 0 <= pos <= str.slen ==>
              CalledBack(if splitStr == [] then [(0, str.Contents())]
                         else Pieces(str.Contents(), pos, CharsOf(splitStr)), answers, calls, ret)
  {
    hide Pieces;
    if pos < 0 || pos > str.slen {
      return BSTR_ERR, [];
    }
    if splitStr == [] {
      return if answers(0) > 0 then 0 else answers(0), [(0, str.data[..str.slen])];
    }
    var chrs := BuildCharField(splitStr);
    ret, calls := Iterate(str, chrs, pos, answers, CharsOf(splitStr));
  }

  method Iterate(str: Bstring, chrs: CharField, pos: nat, answers: nat -> int, ghost seps: set<byte>)
    returns (ret: int, calls: seq<(nat, Text)>)
    requires str.Valid() && pos <= str.slen && Flags(chrs, seps)
    ensures CalledBack(Pieces(str.Contents(), pos, seps), answers, calls, ret)
  {
    hide NextBreak, Pieces, Flags;
    var s := str.data[..str.slen];
    ghost var all := Pieces(s, pos, seps);
    calls, ret := [], BSTR_OK;
    var p := pos;
    while p <= str.slen && ret >= 0
      invariant p <= str.slen + 1
      invariant ret == BSTR_OK ==> if p <= str.slen then calls + Pieces(s, p, seps) == all
                                   else calls == all && calls != []
      invariant ret < 0 ==> calls != [] && calls <= all && ret == answers(|calls| - 1)
      invariant forall k :: 0 <= k < |calls| - (if ret < 0 then 1 else 0) ==> answers(k) >= 0
      invariant ret <= BSTR_OK
      decreases str.slen - p, ret
    {
      var i := FindBreak(str, p, chrs, seps);
      PiecesStep(s, p, seps, calls);
      ret := answers(|calls|);
      ret := if ret > 0 then BSTR_OK else ret;
      calls := calls + [(p, s[p..i])];
      p := i + 1;
    }
  }

  lemma PiecesStep(s: Text, p: nat, seps: set<byte>, calls: seq<(nat, Text)>)
    requires p <= |s|
    ensures var i := NextBreak(s, p, seps);
            && (i < |s| ==> calls + Pieces(s, p, seps) == calls + [(p, s[p..i])] + Pieces(s, i + 1, seps))
            && (i == |s| ==> calls + Pieces(s, p, seps) == calls + [(p, s[p..i])])
  {
    hide NextBreak;
  }

  method FindBreak(str: Bstring, p: nat, chrs: CharField, ghost seps: set<byte>) returns (i: nat)
    requires str.Valid() && p <= str.slen
    requires Flags(chrs, seps)
    ensures i == NextBreak(str.Contents(), p, seps)
  {
    ghost var s := str.Contents();
    i := p;
    while i < str.slen && !chrs[str.data[i]]
      invariant p <= i <= str.slen
      invariant forall k :: p <= k < i ==> s[k] !in seps
    {
      i := i + 1;
    }
    NextBreakIs(s, p, seps, i);
  }

  /** A list of strings that only grows. */
  class BstrList {
    var entry: seq<Text>

    constructor ()
      ensures entry == []
    {
      entry := [];
    }
  }

  /** bsplit and bstrlist_split: the pieces of str become the entries of the list. */
  method BSplit(list: BstrList, str: Bstring, splitChar: byte)
    requires str.Valid()
    modifies list
    ensures list.entry == SplitAt(str.Contents(), splitChar)
  {
    list.entry := [];
    var _, calls := BsplitScb(str, [splitChar], 0, _ => 0);
    assert CharsOf([splitChar]) == {splitChar};
    for i := 0 to |calls|
      invariant list.entry == Texts(calls[..i])
    {
      list.entry := list.entry + [calls[i].1];
    }
    assert calls[..|calls|] == calls;
  }

  function TotalLength(entries: seq<Text>): nat {
    if entries == [] then 0 else |entries[0]| + TotalLength(entries[1..])
  }

  lemma {:induction false} JoinLength(entries: seq<Text>, sep: Text)
    requires entries != []
    ensures |Join(entries, sep)| == TotalLength(entries) + (|entries| - 1) * |sep|
  {
    if |entries| > 1 {
      JoinLength(entries[1..], sep);
      assert (|entries| - 1) * |sep| == (|entries| - 2) * |sep| + |sep|;
    } else {
      assert TotalLength(entries[1..]) == 0;
    }
  }

  lemma {:induction false} JoinSnoc(entries: seq<Text>, e: Text, sep: Text)
    requires entries != []
    ensures Join(entries + [e], sep) == Join(entries, sep) + sep + e
  {
    if |entries| == 1 {
      assert (entries + [e])[1..] == [e];
    } else {
      JoinSnoc(entries[1..], e, sep);
      assert (entries + [e])[1..] == entries[1..] + [e];
    }
  }

  lemma {:induction false} JoinPrefix(entries: seq<Text>, i: nat, sep: Text)
    requires 0 < i <= |entries|
    ensures Join(entries[..i], sep) <= Join(entries, sep)
    decreases |entries| - i
  {
    if i == |entries| {
      assert entries[..i] == entries;
    } else {
      JoinPrefix(entries, i + 1, sep);
      JoinSnoc(entries[..i], entries[i], sep);
      assert entries[..i + 1] == entries[..i] + [entries[i]];
    }
  }

  lemma {:induction false} TotalLengthSnoc(entries: seq<Text>, e: Text)
    ensures TotalLength(entries + [e]) == TotalLength(entries) + |e|
  {
    if entries == [] {
      assert (entries + [e])[1..] == [];
    } else {
      TotalLengthSnoc(entries[1..], e);
      assert (entries + [e])[1..] == entries[1..] + [e];
    }
  }

  /** The room that all entries take. */
  method CountRoom(entries: seq<Text>) returns (c: nat)
    ensures c == TotalLength(entries)
  {
    c := 0;
    for i := 0 to |entries|
      invariant c == TotalLength(entries[..i])
    {
      TotalLengthSnoc(entries[..i], entries[i]);
      assert entries[..i + 1] == entries[..i] + [entries[i]];
      c := c + |entries[i]|;
    }
    assert entries[..|entries|] == entries;
  }

  /** bjoinblk: the room is counted first, then the pieces are copied one behind the other. */
  method BjoinBlk(bl: BstrList, blk: Text) returns (b: Bstring)
    ensures b.Valid() && b.Terminated() && fresh(b) && fresh(b.data)
    ensures b.Contents() == Join(bl.entry, blk)
  {
    if |bl.entry| < 1 {
      b := new Bstring([]);
      return;
    }
    var entries := bl.entry;
    var room := CountRoom(entries);
    var c := 1 + room + (|entries| - 1) * |blk|;
    JoinLength(entries, blk);
    var data := new byte[c];
    CopyEntries(data, entries, blk);
    data[c - 1] := 0;
    b := new Bstring.Over(data, c - 1);
  }

  method CopyEntries(data: array<byte>, entries: seq<Text>, blk: Text)
    requires entries != [] && data.Length == |Join(entries, blk)| + 1
    modifies data
    ensures data[..data.Length - 1] == Join(entries, blk)
  {
    hide Join;
    assert entries[..1] == [entries[0]] + [];
    JoinCons(entries[0], [], blk);
    JoinPrefix(entries, 1, blk);
    MemCpy(data, 0, entries[0]);
    var p: nat := |entries[0]|;
    for i := 1 to |entries|
      invariant p < data.Length && data[..p] == Join(entries[..i], blk)
    {
      JoinPrefix(entries, i + 1, blk);
      JoinSnoc(entries[..i], entries[i], blk);
      assert entries[..i + 1] == entries[..i] + [entries[i]];
      Append(data, p, blk);
      p := p + |blk|;
      Append(data, p, entries[i]);
      p := p + |entries[i]|;
    }
    assert entries[..|entries|] == entries;
  }

  method Append(data: array<byte>, p: nat, t: Text)
    requires p + |t| <= data.Length
    modifies data
    ensures data[..p + |t|] == old(data[..p]) + t
  {
    MemCpy(data, p, t);
    assert data[..p + |t|] == data[..p] + data[p..p + |t|];
  }
}
