/** Splitting what a stream delivers, and runs of stream operations. */
module StreamSplit {
  import opened Bytes
  import opened Bstrings
  import opened Split
  import opened Streams

  const BSSSC_BUFF_LEN := 256

  /** One more read: d bytes of what is left go behind what the buffer has got. */
  method ReadMore(s: BStream, buff: Bstring, ghost got: Text, ghost left: Text) returns (ret: int, ghost d: nat)
    requires s.Valid() && buff.Valid() && buff != s.buff && buff.data != s.buff.data
    requires got == buff.Contents() && left == s.Pending()
    modifies s`isEOF, s.buff, s.buff.data, s.core, buff, buff.data
    ensures s.Valid() && (s.buff.data == old(s.buff.data) || fresh(s.buff.data))
    ensures buff.Valid() && (buff.data == old(buff.data) || fresh(buff.data)) && buff.data != s.buff.data
    ensures d <= |left| && buff.Contents() == got + left[..d] && s.Pending() == left[d..]
    ensures ret == (if left == [] then BSTR_ERR else BSTR_OK) && (d == 0 <==> left == [])
  {
    ret := s.Bsreada(buff, BSSSC_BUFF_LEN);
    d := buff.slen - |got|;
  }

  /** All that is left of the stream, appended to buff. */
  method ReadAll(s: BStream, buff: Bstring)
    requires s.Valid() && buff.Valid() && buff != s.buff && buff.data != s.buff.data
    modifies s`isEOF, s.buff, s.buff.data, s.core, buff, buff.data
    ensures s.Valid() && s.Pending() == []
    ensures buff.Valid() && buff.Contents() == old(buff.Contents() + s.Pending())
  {
    ghost var got, left := buff.Contents(), s.Pending();
    ghost var all := got + left;
    var ret := BSTR_OK;
    while ret >= 0
      invariant s.Valid() && (s.buff.data == old(s.buff.data) || fresh(s.buff.data))
      invariant buff.Valid() && (buff.data == old(buff.data) || fresh(buff.data)) && buff.data != s.buff.data
      invariant got == buff.Contents() && left == s.Pending() && all == got + left
      invariant ret == BSTR_OK || (ret == BSTR_ERR && left == [])
      decreases |left| + ret + 1
    {
      ghost var d;
      ret, d := ReadMore(s, buff, got, left);
      Moved(got, left, d);
      got, left := got + left[..d], left[d..];
    }
    assert got + [] == got;
  }

  lemma Moved(got: Text, left: Text, d: nat)
    requires d <= |left|
    ensures got + left == got + left[..d] + left[d..]
  {
  }

  /** What stands behind the entry of the last call and its separator. */
  function BehindLast(all: Text, calls: seq<(nat, Text)>): Text {
    if calls == [] then all
    else
      var last := calls[|calls| - 1];
      var end := last.0 + |last.1|;
      if end < |all| then all[end + 1..] else []
  }

  /** Each piece is the text from its offset on, up to a separator or the end. */
  lemma {:induction false} PieceIs(all: Text, p: nat, seps: set<byte>, k: nat)
    requires p <= |all| && k < |Pieces(all, p, seps)|
    ensures var pieces := Pieces(all, p, seps);
            var (at, entry) := pieces[k];
            && p <= at && at + |entry| <= |all| && all[at..at + |entry|] == entry
            && (k == |pieces| - 1 <==> at + |entry| == |all|)
            && (k < |pieces| - 1 ==> all[at + |entry|] in seps)
    decreases |all| - p
  {
    hide NextBreak, Pieces;
    var i := NextBreak(all, p, seps);
    FirstAndOthers(all, p, seps);
    if i < |all| {
      FirstAndOthers(all, i + 1, seps);
      if k > 0 {
        PieceIs(all, i + 1, seps, k - 1);
      }
    }
  }

  lemma FirstAndOthers(all: Text, p: nat, seps: set<byte>)
    requires p <= |all|
    ensures var i, pieces := NextBreak(all, p, seps), Pieces(all, p, seps);
            && |pieces| == 1 + (if i < |all| then |Pieces(all, i + 1, seps)| else 0)
            && pieces[0] == (p, all[p..i])
            && (i < |all| ==> forall k :: 0 < k < |pieces| ==> pieces[k] == Pieces(all, i + 1, seps)[k - 1])
  {
    hide NextBreak;
  }

  /** The stream is left standing right behind the separator of the last piece that was handed out, or at its end. */
  lemma BehindLastIs(all: Text, seps: set<byte>, answers: nat -> int, calls: seq<(nat, Text)>, ret: int)
    requires CalledBack(Pieces(all, 0, seps), answers, calls, ret)
    ensures var (at, entry) := calls[|calls| - 1];
            && at <= |all|
            && if calls == Pieces(all, 0, seps) then all == all[..at] + entry && BehindLast(all, calls) == []
            else exists sep :: sep in seps && all == all[..at] + entry + [sep] + BehindLast(all, calls)
  {
    hide Pieces;
    PieceIs(all, 0, seps, |calls| - 1);
    var (at, entry) := calls[|calls| - 1];
    CutOut(all, at, at + |entry|);
  }

  lemma CutOut(all: Text, at: nat, end: nat)
    requires at <= end <= |all|
    ensures end == |all| ==> all == all[..at] + all[at..end]
    ensures end < |all| ==> all == all[..at] + all[at..end] + [all[end]] + all[end + 1..]
  {
  }

  /**
    bssplitscb: calls lists offset and entry of each call of the callback, whose answers are given; it leaves the stream
    alone. The stream is left standing behind the last entry and its separator.
   */
  method BssplitScb(s: BStream, splitStr: Text, answers: nat -> int) returns (ret: int, calls: seq<(nat, Text)>)
    requires s.Valid()
    modifies s`isEOF, s.buff, s.buff.data, s.core
    ensures s.Valid() && s.Pending() == BehindLast(old(s.Pending()), calls)
    ensures var all := old(s.Pending());
            CalledBack(if splitStr == [] then [(0, all)] else Pieces(all, 0, CharsOf(splitStr)), answers, calls, ret)
  {
    hide Pieces;
    var buff := new Bstring([]);
    if splitStr == [] {
      ReadAll(s, buff);
      assert buff.data[..buff.slen] == old(s.Pending());
      return if answers(0) > 0 then 0 else answers(0), [(0, buff.data[..buff.slen])];
    }
    var chrs := BuildCharField(splitStr);
    ret, calls := SplitLoop(s, buff, chrs, answers, CharsOf(splitStr));
  }

  /** How far the calls have got: more pieces are to come from p on, or it is over. */
  ghost predicate SoFar(all: Text, seps: set<byte>, answers: nat -> int, calls: seq<(nat, Text)>, ret: int,
                        more: bool, p: nat, left: Text) {
    if more then
      && p <= |all| && all[p..] == left && ret == BSTR_OK
      && calls + Pieces(all, p, seps) == Pieces(all, 0, seps) && forall k :: 0 <= k < |calls| ==> answers(k) >= 0
    else CalledBack(Pieces(all, 0, seps), answers, calls, ret) && left == BehindLast(all, calls)
  }

  lemma AtFirst(all: Text, seps: set<byte>, answers: nat -> int)
    ensures SoFar(all, seps, answers, [], BSTR_OK, true, 0, all)
  {
    hide Pieces;
    assert all[0..] == all && [] + Pieces(all, 0, seps) == Pieces(all, 0, seps);
  }

  lemma AfterLast(all: Text, seps: set<byte>, answers: nat -> int, calls: seq<(nat, Text)>, p: nat, got: Text)
    requires SoFar(all, seps, answers, calls, BSTR_OK, true, p, got) && NoneIn(got, |got|, seps)
    ensures var ret := if answers(|calls|) < 0 then answers(|calls|) else BSTR_OK;
            SoFar(all, seps, answers, calls + [(p, got)], ret, false, p, [])
  {
    hide Pieces, NoneIn;
    LastPiece(all, p, seps, got, calls);
  }

  lemma AfterPiece(all: Text, seps: set<byte>, answers: nat -> int, calls: seq<(nat, Text)>, p: nat, left: Text,
                   got: Text, rest: Text, i: nat)
    requires SoFar(all, seps, answers, calls, BSTR_OK, true, p, left) && left == got + rest
    requires i < |got| && got[i] in seps && NoneIn(got, i, seps)
    ensures var ret := if answers(|calls|) < 0 then answers(|calls|) else BSTR_OK;
            SoFar(all, seps, answers, calls + [(p, got[..i])], ret, ret >= 0, p + i + 1, got[i + 1..] + rest)
  {
    hide Pieces, NoneIn;
    PieceBefore(all, p, seps, got, rest, i, calls);
  }

  /**
    The scan of the buffer. After a terminator the rest of the buffer is unread, so that the stream stands right
    behind the terminator while the callback runs; the next read brings it back.
   */
  method SplitLoop(s: BStream, buff: Bstring, chrs: CharField, answers: nat -> int, ghost seps: set<byte>)
    returns (ret: int, calls: seq<(nat, Text)>)
    requires s.Valid() && buff.Valid() && buff != s.buff && buff.data != s.buff.data
    requires Flags(chrs, seps) && buff.slen == 0
    modifies s`isEOF, s.buff, s.buff.data, s.core, buff, buff.data
    ensures s.Valid() && s.Pending() == BehindLast(old(s.Pending()), calls)
    ensures CalledBack(Pieces(old(s.Pending()), 0, seps), answers, calls, ret)
  {
    hide NextBreak, Pieces, Flags, NoneIn, SoFar;
    ghost var all, left := s.Pending(), s.Pending();
    AtFirst(all, seps, answers);
    var p: nat, more: bool := 0, true;
    ret, calls := BSTR_OK, [];
    while more
      invariant s.Valid() && (s.buff.data == old(s.buff.data) || fresh(s.buff.data))
      invariant buff.Valid() && (buff.data == old(buff.data) || fresh(buff.data)) && buff.data != s.buff.data
      invariant (more ==> buff.slen == 0 && ret == BSTR_OK) && left == s.Pending()
      invariant SoFar(all, seps, answers, calls, ret, more, p, left)
      decreases more, |left|
    {
      var i := FindInStream(s, buff, chrs, seps, left);
      ghost var got, rest := buff.Contents(), s.Pending();
      ret := answers(|calls|);
      ret := if ret > 0 then BSTR_OK else ret;
      if i >= buff.slen {
        assert got + [] == got;
        AfterLast(all, seps, answers, calls, p, got);
        calls := calls + [(p, buff.data[..buff.slen])];
        left, more := [], false;
      } else {
        AfterPiece(all, seps, answers, calls, p, left, got, rest, i);
        var entry := CutPiece(s, buff, i, got, rest);
        calls := calls + [(p, entry)];
        p := p + i + 1;
        left, more := got[i + 1..] + rest, ret >= 0;
      }
    }
    Over(all, seps, answers, calls, ret, p, left);
  }

  lemma Over(all: Text, seps: set<byte>, answers: nat -> int, calls: seq<(nat, Text)>, ret: int, p: nat, left: Text)
    requires SoFar(all, seps, answers, calls, ret, false, p, left)
    ensures CalledBack(Pieces(all, 0, seps), answers, calls, ret) && left == BehindLast(all, calls)
  {
    hide Pieces;
  }

  /** Reads into the buffer until it has a terminator, at index i, or the stream has nothing left. */
  method FindInStream(s: BStream, buff: Bstring, chrs: CharField, ghost seps: set<byte>, ghost all: Text)
    returns (i: nat)
    requires s.Valid() && buff.Valid() && buff != s.buff && buff.data != s.buff.data
    requires Flags(chrs, seps) && buff.slen == 0 && all == s.Pending()
    modifies s`isEOF, s.buff, s.buff.data, s.core, buff, buff.data
    ensures s.Valid() && (s.buff.data == old(s.buff.data) || fresh(s.buff.data))
    ensures buff.Valid() && (buff.data == old(buff.data) || fresh(buff.data)) && buff.data != s.buff.data
    ensures all == buff.Contents() + s.Pending()
    ensures i <= buff.slen && NoneIn(buff.Contents(), i, seps)
    ensures i < buff.slen ==> buff.Contents()[i] in seps
    ensures i == buff.slen ==> s.Pending() == []
  {
    hide Flags;
    ghost var got, left := buff.Contents(), s.Pending();
    i := 0;
    while true
      invariant s.Valid() && (s.buff.data == old(s.buff.data) || fresh(s.buff.data))
      invariant buff.Valid() && (buff.data == old(buff.data) || fresh(buff.data)) && buff.data != s.buff.data
      invariant got == buff.Contents() && left == s.Pending() && all == got + left
      invariant i <= |got| && NoneIn(got, i, seps)
      decreases |left|, |got| - i
    {
      if i >= buff.slen {
        ghost var _, d := ReadMore(s, buff, got, left);
        Moved(got, left, d);
        got, left := got + left[..d], left[d..];
        if i >= buff.slen {
          return;
        }
      }
      FlagOf(chrs, seps, got[i]);
      assert buff.data[i] == got[i];
      if chrs[buff.data[i]] {
        return;
      }
      i := i + 1;
    }
  }

  /**
    The piece before index i is handed to the callback, as a C string; what is behind the terminator goes back
    to the stream.
   */
  method CutPiece(s: BStream, buff: Bstring, i: nat, ghost got: Text, ghost left: Text) returns (entry: Text)
    requires s.Valid() && buff.Valid() && buff != s.buff && buff.data != s.buff.data
    requires i < buff.slen && got == buff.Contents() && left == s.Pending()
    modifies s.buff, s.buff.data, buff, buff.data
    ensures s.Valid() && (s.buff.data == old(s.buff.data) || fresh(s.buff.data))
    ensures buff.Valid() && buff.data == old(buff.data) && buff.data != s.buff.data
    ensures entry == got[..i] && buff.Contents() == [] && s.Pending() == got[i + 1..] + left
  {
    assert buff.data[i + 1..buff.slen] == got[i + 1..];
    s.Unread(buff.data[i + 1..buff.slen]);
    buff.slen := i;
    var c := buff.data[i];
    buff.data[i] := 0;
    entry := buff.data[..i];
    buff.data[i] := c;
    buff.slen := 0;
  }

  lemma FlagOf(chrs: CharField, seps: set<byte>, c: byte)
    requires Flags(chrs, seps)
    ensures chrs[c] <==> c in seps
  {
  }

  lemma LastPiece(all: Text, p: nat, seps: set<byte>, got: Text, calls: seq<(nat, Text)>)
    requires p <= |all| && all[p..] == got && NoneIn(got, |got|, seps)
    ensures calls + Pieces(all, p, seps) == calls + [(p, got)]
  {
    hide Pieces, NextBreak;
    Behind(all, p, got);
    NextBreakIs(all, p, seps, |all|);
    PiecesStep(all, p, seps, calls);
    assert all[p..|all|] == got;
  }

  lemma PieceBefore(all: Text, p: nat, seps: set<byte>, got: Text, left: Text, i: nat, calls: seq<(nat, Text)>)
    requires p <= |all| && all[p..] == got + left && i < |got| && got[i] in seps && NoneIn(got, i, seps)
    ensures p + i + 1 <= |all| && all[p + i + 1..] == got[i + 1..] + left
    ensures calls + Pieces(all, p, seps) == calls + [(p, got[..i])] + Pieces(all, p + i + 1, seps)
  {
    hide Pieces, NextBreak;
    Behind(all, p, got + left);
    NextBreakIs(all, p, seps, p + i);
    PiecesStep(all, p, seps, calls);
    SliceOfSlice(all, p, |all|, 0, i);
    SliceOfSlice(all, p, |all|, i + 1, |got| + |left|);
    assert all[p..|all|] == got + left;
    assert (got + left)[0..i] == got[..i] && all[p..p + i] == got[..i];
    assert (got + left)[i + 1..|got| + |left|] == got[i + 1..] + left;
    assert all[p + i + 1..|all|] == all[p + i + 1..];
  }

  lemma Behind(all: Text, p: nat, t: Text)
    requires p <= |all| && all[p..] == t
    ensures |all| == p + |t|
    ensures forall k :: p <= k < |all| ==> all[k] == t[k - p]
  {
  }

  ghost predicate NoneIn(s: Text, i: nat, seps: set<byte>)
    requires i <= |s|
  {
    forall k :: 0 <= k < i ==> s[k] !in seps
  }

  /**
    A stream is split into the same entries, at the same offsets and with the same outcome, as its whole content held
    in a string, whatever the callback answers.
   */
  method SplitBothWays(content: Text, chunk: nat -> nat, splitStr: Text, answers: nat -> int)
    returns (ret: int, fromStream: seq<(nat, Text)>, ret': int, fromString: seq<(nat, Text)>)
    ensures fromStream == fromString && ret == ret'
  {
    hide Pieces;
    var core := new CoreStream(content, chunk);
    var s := new BStream(core);
    assert s.Pending() == content;
    ret, fromStream := BssplitScb(s, splitStr, answers);
    var b := new Bstring(content);
    ret', fromString := BsplitScb(b, splitStr, 0, answers);
    CallsAreUnique(if splitStr == [] then [(0, content)] else Pieces(content, 0, CharsOf(splitStr)),
                   answers, fromStream, ret, fromString, ret');
  }

  // ----- runs of stream operations

  /** The operations on a stream: a line, a number of bytes, or bytes given back. */
  datatype Op = Line(terms: Text) | Some(n: nat) | Back(bytes: Text)

  /** What one operation may deliver, out, and what it leaves, after, when before is still to come. */
  ghost predicate Explains(op: Op, before: Text, out: Text, after: Text) {
    match op
    case Line(terms) =>
      out + after == before && out == if terms == [] then [] else FirstLine(before, CharsOf(terms))
    case Some(n) =>
      out + after == before && |out| <= n && (out == [] <==> n == 0 || before == [])
    case Back(bytes) =>
      out == [] && after == bytes + before
  }

  /** A whole run of operations, and what each of them delivered. */
  ghost predicate ExplainsAll(ops: seq<Op>, before: Text, outs: seq<Text>, after: Text) {
    if ops == [] then outs == [] && after == before
    else |outs| == |ops|
         && exists mid :: Explains(ops[0], before, outs[0], mid) && ExplainsAll(ops[1..], mid, outs[1..], after)
  }

  method RunOp(s: BStream, op: Op) returns (out: Text)
    requires s.Valid()
    modifies s`isEOF, s.buff, s.buff.data, s.core
    ensures s.Valid() && (s.buff.data == old(s.buff.data) || fresh(s.buff.data))
    ensures Explains(op, old(s.Pending()), out, s.Pending())
  {
    hide FirstLine, Explains;
    ghost var before := s.Pending();
    var r := new Bstring([]);
    match op
    case Line(terms) =>
      var _ := s.Bsreadlnsa(r, terms);
      out := r.data[..r.slen];
      assert before[0..] == before;
      LineExplained(terms, before, out);
    case Some(n) =>
      var _ := s.Bsreada(r, n);
      out := r.data[..r.slen];
      assert out == before[..r.slen];
      SomeExplained(n, before, r.slen);
    case Back(bytes) =>
      s.Unread(bytes);
      out := [];
      BackExplained(bytes, before);
  }

  lemma LineExplained(terms: Text, before: Text, out: Text)
    requires out == if terms == [] then [] else FirstLine(before, CharsOf(terms))
    ensures Explains(Line(terms), before, out, before[|out|..])
  {
  }

  lemma SomeExplained(n: nat, before: Text, d: nat)
    requires d <= n && d <= |before| && (d == 0 <==> n == 0 || before == [])
    ensures Explains(Some(n), before, before[..d], before[d..])
  {
  }

  lemma BackExplained(bytes: Text, before: Text)
    ensures Explains(Back(bytes), before, [], bytes + before)
  {
  }

  method RunAll(s: BStream, ops: seq<Op>) returns (outs: seq<Text>)
    requires s.Valid()
    modifies s`isEOF, s.buff, s.buff.data, s.core
    ensures s.Valid() && (s.buff.data == old(s.buff.data) || fresh(s.buff.data))
    ensures ExplainsAll(ops, old(s.Pending()), outs, s.Pending())
    decreases |ops|
  {
    if ops == [] {
      return [];
    }
    hide Explains;
    var out := RunOp(s, ops[0]);
    ghost var mid := s.Pending();
    var rest := RunAll(s, ops[1..]);
    outs := [out] + rest;
    assert outs[1..] == rest;
    assert Explains(ops[0], old(s.Pending()), outs[0], mid) && ExplainsAll(ops[1..], mid, outs[1..], s.Pending());
  }

  /** Without bytes given back, what was delivered and what is left make up the content, in order. */
  lemma {:induction false} NothingLost(ops: seq<Op>, before: Text, outs: seq<Text>, after: Text)
    requires ExplainsAll(ops, before, outs, after)
    requires forall op :: op in ops ==> !op.Back?
    ensures Concat(outs) + after == before
    decreases |ops|
  {
    hide Explains, FirstLine, Concat;
    if ops == [] {
      ConcatNone(outs);
      assert outs[..0] == [] && [] + after == after;
    } else {
      var mid :| Explains(ops[0], before, outs[0], mid) && ExplainsAll(ops[1..], mid, outs[1..], after);
      assert ops[0] in ops;
      DeliversFront(ops[0], before, outs[0], mid);
      NothingLost(ops[1..], mid, outs[1..], after);
      ConcatCons(outs);
      assert outs[0] + Concat(outs[1..]) + after == outs[0] + (Concat(outs[1..]) + after);
    }
  }

  lemma DeliversFront(op: Op, before: Text, out: Text, after: Text)
    requires Explains(op, before, out, after) && !op.Back?
    ensures out + after == before
  {
    hide FirstLine;
  }
}
