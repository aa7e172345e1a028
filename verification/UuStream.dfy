/** A stream that decodes UU lines which it reads from another stream. */
module UuStream {
  import opened Bytes
  import opened Bstrings
  import opened Split
  import opened Streams
  import opened UuCode

  /** All that a decoder will have handed out and counted in the end, and what stands behind the last line end. */
  datatype Total = Total(bytes: Text, bad: nat, unended: Text)

  /** The total where dst and bad are what there is so far, and t is still to be decoded. */
  function TotalOf(dst: Text, bad: nat, t: Text): Total {
    Total(dst + Lines(t), bad + BadLines(t), Unended(t))
  }

  /** The next line end is at i, and the line that starts at p is decoded. */
  lemma NextLine(dst: Text, bad: nat, s: Text, rest: Text, p: nat, i: nat)
    requires p <= i < |s| && i == NextBreak(s, p, EOL)
    ensures TotalOf(dst, bad, s[p..] + rest)
         == TotalOf(dst + LineBytes(s[p..i]), bad + if IsBad(s[p..i]) then 1 else 0, s[i + 1..] + rest)
  {
    hide LineBytes, IsBad, Lines, BadLines, Unended;
    var line, more := s[p..i], s[i..] + rest;
    assert more[0] == s[i];
    forall x | x in line
      ensures x !in EOL
    {
    }
    assert s[p..] + rest == line + more && more[1..] == s[i + 1..] + rest;
    FirstOf(line, more);
    assert dst + (LineBytes(line) + Lines(more[1..])) == dst + LineBytes(line) + Lines(more[1..]);
  }

  lemma NoLine(dst: Text, bad: nat, src: Text)
    requires NextBreak(src, 0, EOL) == |src|
    ensures TotalOf(dst, bad, src) == Total(dst, bad, src)
  {
    assert dst + [] == dst;
  }

  class UuCtx {
    const src: Bstring
    const dst: Bstring
    const sInp: BStream
    var badlines: nat

    ghost predicate Valid()
      reads this, src, dst, sInp, sInp.buff, sInp.core
    {
      && src.Valid() && dst.Valid() && sInp.Valid()
      && src != dst && src.data != dst.data
      && sInp.buff != src && sInp.buff != dst && sInp.buff.data != src.data && sInp.buff.data != dst.data
    }

    ghost function Ahead(): Total
      requires Valid()
      reads this, src, src.data, dst, dst.data, sInp, sInp.buff, sInp.buff.data, sInp.core
    {
      TotalOf(dst.Contents(), badlines, src.Contents() + sInp.Pending())
    }

    /** bsUuDecode */
    constructor (sInp: BStream)
      requires sInp.Valid()
      ensures Valid() && fresh(src) && fresh(dst) && fresh(src.data) && fresh(dst.data) && this.sInp == sInp
      ensures src.Contents() == [] && dst.Contents() == [] && badlines == 0
    {
      src := new Bstring([]);
      dst := new Bstring([]);
      this.sInp := sInp;
      badlines := 0;
    }

    /** binchr (src, pos, eol) */
    method FindEol(pos: nat) returns (l: int)
      requires src.Valid()
      ensures var s := src.Contents();
              if pos < |s| && NextBreak(s, pos, EOL) < |s| then l == NextBreak(s, pos, EOL) else l == BSTR_ERR
    {
      if src.slen <= pos {
        return BSTR_ERR;
      }
      var cf := BuildCharField([CR, LF]);
      assert CharsOf([CR, LF]) == EOL;
      l := FindBreak(src, pos, cf, EOL);
      if l == src.slen {
        l := BSTR_ERR;
      }
    }

    method DecodeOne(ol: nat, l: nat)
      requires src.Valid() && dst.Valid() && src != dst && src.data != dst.data && ol <= l <= src.slen
      modifies this`badlines, dst, dst.data
      ensures dst.Valid() && (dst.data == old(dst.data) || fresh(dst.data))
      ensures var line := src.Contents()[ol..l];
              && dst.Contents() == old(dst.Contents()) + LineBytes(line)
              && badlines == old(badlines) + if IsBad(line) then 1 else 0
    {
      hide LineBytes, IsBad;
      EmptyLine();
      assert dst.Contents() + [] == dst.Contents();
      assert src.Contents()[ol..l] == src.data[ol..l];
      if l > ol {
        var ret;
        ret, badlines := DecLine(dst, src.data[ol..l], true, badlines);
      }
    }

    /** The lines that have their ends in the buffer are decoded, until there is enough for tsz bytes. */
    method DecodeLines(first: nat, tsz: nat, ghost rest: Text)
      requires src.Valid() && dst.Valid() && src != dst && src.data != dst.data
      requires first < src.slen && first == NextBreak(src.Contents(), 0, EOL)
      modifies this`badlines, src, src.data, dst, dst.data
      ensures src.Valid() && dst.Valid() && src.data == old(src.data) && (dst.data == old(dst.data) || fresh(dst.data))
      ensures src.slen < old(src.slen)
      ensures TotalOf(dst.Contents(), badlines, src.Contents() + rest)
           == old(TotalOf(dst.Contents(), badlines, src.Contents() + rest))
    {
      hide TotalOf, LineBytes, IsBad, NextBreak;
      ghost var s, got := src.Contents(), dst.Contents();
      ghost var total := TotalOf(got, badlines, s + rest);
      var ol: nat, l: int, more: bool := 0, first, true;
      assert s[0..] == s;
      while more
        invariant src.Valid() && dst.Valid() && src.data == old(src.data)
        invariant dst.data == old(dst.data) || fresh(dst.data)
        invariant src.Contents() == s && ol <= |s| && got == dst.Contents()
        invariant if more then ol <= l < |s| && l == NextBreak(s, ol, EOL) else ol > 0
        invariant TotalOf(got, badlines, s[ol..] + rest) == total
        decreases more, |s| - ol
      {
        NextLine(got, badlines, s, rest, ol, l);
        got := got + LineBytes(s[ol..l]);
        DecodeOne(ol, l);
        ol := l + 1;
        more := dst.slen <= tsz;
        if more {
          l := FindEol(ol);
          more := l != BSTR_ERR;
        }
      }
      DropFront(src, ol);
    }

    method DropFront(b: Bstring, n: nat)
      requires b.Valid() && n <= b.slen
      modifies b, b.data
      ensures b.Valid() && b.data == old(b.data) && b.Contents() == old(b.Contents())[n..]
    {
      hide Deleted;
      var _ := b.Delete(0, n);
    }

    /**
      bsUuDecodePart. Once no line end comes any more (done), what is left over is decoded as a line, but it stays in
      src. The bytes that go to buff are those that are next.
     */
    method DecodePart(buff: array<byte>, tsz: nat) returns (n: nat, ghost done: bool)
      requires Valid() && 0 < tsz <= buff.Length
      requires buff != src.data && buff != dst.data && buff != sInp.buff.data
      modifies this`badlines, src, src.data, dst, dst.data, sInp`isEOF, sInp.buff, sInp.buff.data, sInp.core, buff
      ensures Valid() && buff != src.data && buff != dst.data && buff != sInp.buff.data
      ensures (src.data == old(src.data) || fresh(src.data)) && (dst.data == old(dst.data) || fresh(dst.data))
      ensures sInp.buff.data == old(sInp.buff.data) || fresh(sInp.buff.data)
      ensures n <= tsz && (n == 0 ==> done && dst.Contents() == []) && (!done ==> n == tsz)
      ensures HandsOut(old(Ahead()), done, buff[..n], Ahead())
      ensures done ==> Ahead() == Total(dst.Contents(), badlines, src.Contents())
      ensures done ==> sInp.Pending() == [] && (n < tsz ==> dst.Contents() == [])
    {
      hide TotalOf, HandsOut, NextBreak;
      done := false;
      var ended := Gather(tsz);
      ghost var t, got, bad := src.Contents() + sInp.Pending(), dst.Contents(), badlines;
      if ended {
        done := true;
        n := Finish(buff, tsz);
        assert src.Contents() + [] == src.Contents();
        SentLast(got, bad, t, buff[..n], dst.Contents());
      } else {
        n := Send(buff, tsz);
        SentOff(got, bad, t, buff[..n], dst.Contents());
      }
    }

    /** What is left over is decoded as a line as well, but not taken out of src. */
    method Finish(buff: array<byte>, tsz: nat) returns (n: nat)
      requires src.Valid() && dst.Valid() && src != dst && src.data != dst.data
      requires 0 < tsz <= buff.Length && buff != dst.data && buff != src.data
      modifies this`badlines, dst, dst.data, buff
      ensures dst.Valid() && (dst.data == old(dst.data) || fresh(dst.data))
      ensures n <= tsz && dst.slen == old(dst.slen) + |LineBytes(src.Contents())| - n && (n < tsz ==> dst.slen == 0)
      ensures old(dst.Contents()) + LineBytes(src.Contents()) == buff[..n] + dst.Contents()
      ensures badlines == old(badlines) + if IsBad(src.Contents()) then 1 else 0
    {
      hide LineBytes, IsBad;
      assert src.Contents()[0..src.slen] == src.Contents();
      DecodeOne(0, src.slen);
      n := Send(buff, tsz);
    }

    /** At most tsz bytes of what is decoded go to buff. */
    method Send(buff: array<byte>, tsz: nat) returns (n: nat)
      requires dst.Valid() && 0 < tsz <= buff.Length && buff != dst.data
      modifies dst, dst.data, buff
      ensures dst.Valid() && dst.data == old(dst.data)
      ensures n == if old(dst.slen) > tsz then tsz else old(dst.slen)
      ensures old(dst.Contents()) == buff[..n] + dst.Contents()
      ensures dst.slen == old(dst.slen) - n
    {
      ghost var d := dst.Contents();
      n := if dst.slen > tsz then tsz else dst.slen;
      assert d == d[..n] + d[n..] && d[..0] + d[n..] == d[n..];
      MemCpy(buff, 0, dst.data[..n]);
      assert buff[..n] == buff[0..0 + n] == d[..n];
      if dst.slen > tsz {
        var _ := dst.Delete(0, tsz);
      } else {
        dst.slen := 0;
      }
    }

    /** Either the lines that are in src are decoded, or more is read into it. */
    method GatherMore(tsz: nat) returns (done: bool)
      requires Valid()
      modifies this`badlines, src, src.data, dst, dst.data, sInp`isEOF, sInp.buff, sInp.buff.data, sInp.core
      ensures Valid()
      ensures (src.data == old(src.data) || fresh(src.data)) && (dst.data == old(dst.data) || fresh(dst.data))
      ensures sInp.buff.data == old(sInp.buff.data) || fresh(sInp.buff.data)
      ensures Ahead() == old(Ahead())
      ensures if done then dst.slen == old(dst.slen) && sInp.Pending() == []
                           && NextBreak(src.Contents(), 0, EOL) == src.slen
              else || src.slen + |sInp.Pending()| < old(src.slen + |sInp.Pending()|)
                   || (src.slen + |sInp.Pending()| == old(src.slen + |sInp.Pending()|)
                       && |sInp.Pending()| < old(|sInp.Pending()|))
    {
      hide TotalOf, NextBreak;
      ghost var s, pending := src.Contents(), sInp.Pending();
      NextBreakOfEmpty(s);
      done := false;
      var l := FindEol(0);
      if l >= 0 {
        DecodeLines(l, tsz, pending);
      } else {
        done := ReadSource();
      }
    }

    /** More of the stream is read into src, if there is more. */
    method ReadSource() returns (done: bool)
      requires Valid()
      modifies src, src.data, sInp`isEOF, sInp.buff, sInp.buff.data, sInp.core
      ensures Valid() && (src.data == old(src.data) || fresh(src.data))
      ensures sInp.buff.data == old(sInp.buff.data) || fresh(sInp.buff.data)
      ensures Ahead() == old(Ahead())
      ensures if done then src.Contents() == old(src.Contents()) && sInp.Pending() == []
              else src.slen + |sInp.Pending()| == old(src.slen + |sInp.Pending()|)
                   && |sInp.Pending()| < old(|sInp.Pending()|)
    {
      hide TotalOf;
      ghost var s, pending := src.Contents(), sInp.Pending();
      var ret := sInp.Bsreada(src, sInp.maxBuffSz);
      done := ret == BSTR_ERR;
      ghost var d := src.slen - |s|;
      assert s + pending == s + pending[..d] + pending[d..];
      assert d == 0 ==> s + pending[..d] == s;
    }

    /** Lines are read and decoded until there is enough for tsz bytes, or no line end comes any more. */
    method Gather(tsz: nat) returns (done: bool)
      requires Valid()
      modifies this`badlines, src, src.data, dst, dst.data, sInp`isEOF, sInp.buff, sInp.buff.data, sInp.core
      ensures Valid()
      ensures (src.data == old(src.data) || fresh(src.data)) && (dst.data == old(dst.data) || fresh(dst.data))
      ensures sInp.buff.data == old(sInp.buff.data) || fresh(sInp.buff.data)
      ensures Ahead() == old(Ahead())
      ensures if done then dst.slen <= tsz && sInp.Pending() == [] && NextBreak(src.Contents(), 0, EOL) == src.slen
              else dst.slen > tsz
    {
      hide TotalOf, NextBreak;
      ghost var total := Ahead();
      ghost var s, pending := src.Contents(), sInp.Pending();
      done := false;
      while !done && dst.slen <= tsz
        invariant Valid() && s == src.Contents() && pending == sInp.Pending()
        invariant (src.data == old(src.data) || fresh(src.data)) && (dst.data == old(dst.data) || fresh(dst.data))
        invariant sInp.buff.data == old(sInp.buff.data) || fresh(sInp.buff.data)
        invariant TotalOf(dst.Contents(), badlines, s + pending) == total
        invariant done ==> dst.slen <= tsz && pending == [] && NextBreak(s, 0, EOL) == |s|
        decreases !done, |s| + |pending|, |pending|
      {
        done := GatherMore(tsz);
        s, pending := src.Contents(), sInp.Pending();
      }
    }
  }

  /** What one call hands out comes off the front; at the end, what stands behind the last line end joins in. */
  ghost predicate HandsOut(before: Total, done: bool, piece: Text, after: Total) {
    && after.unended == before.unended
    && piece + after.bytes == before.bytes + (if done then LineBytes(before.unended) else [])
    && after.bad == before.bad + if done && IsBad(before.unended) then 1 else 0
  }

  lemma SentOff(got: Text, bad: nat, t: Text, piece: Text, left: Text)
    requires got == piece + left
    ensures HandsOut(TotalOf(got, bad, t), false, piece, TotalOf(left, bad, t))
  {
    hide LineBytes, IsBad;
    assert piece + (left + Lines(t)) == got + Lines(t) == got + Lines(t) + [];
  }

  lemma SentLast(got: Text, bad: nat, t: Text, piece: Text, left: Text)
    requires NextBreak(t, 0, EOL) == |t|
    requires got + LineBytes(t) == piece + left
    ensures HandsOut(TotalOf(got, bad, t), true, piece, TotalOf(left, bad + if IsBad(t) then 1 else 0, t))
    ensures TotalOf(left, bad + if IsBad(t) then 1 else 0, t) == Total(left, bad + if IsBad(t) then 1 else 0, t)
  {
    hide LineBytes, IsBad, NextBreak, TotalOf;
    NoLine(got, bad, t);
    NoLine(left, bad + if IsBad(t) then 1 else 0, t);
  }

  lemma NextBreakOfEmpty(s: Text)
    ensures s == [] ==> NextBreak(s, 0, EOL) == 0
  {
  }

  /** Memory that belongs to the decoder, its input, the string that is written and the block in between. */
  ghost predicate Apart(ctx: UuCtx, b: Bstring, buff: array<byte>)
    reads ctx, ctx.src, ctx.dst, ctx.sInp, ctx.sInp.buff, b
  {
    && b != ctx.src && b != ctx.dst && b != ctx.sInp.buff
    && b.data != ctx.src.data && b.data != ctx.dst.data && b.data != ctx.sInp.buff.data && b.data != buff
    && buff != ctx.src.data && buff != ctx.dst.data && buff != ctx.sInp.buff.data
  }

  /** One round of the loop of bsreada: what the buffer holds goes to b, and the decoder fills the buffer again. */
  method ReadOne(ctx: UuCtx, b: Bstring, buff: array<byte>, l: nat) returns (l': nat, ghost done: bool)
    requires ctx.Valid() && b.Valid() && Apart(ctx, b, buff) && l <= BS_BUFF_SZ <= buff.Length && b.slen + l < INT_MAX
    modifies ctx`badlines, ctx.src, ctx.src.data, ctx.dst, ctx.dst.data
    modifies ctx.sInp`isEOF, ctx.sInp.buff, ctx.sInp.buff.data, ctx.sInp.core, b, b.data, buff
    ensures ctx.Valid() && b.Valid() && Apart(ctx, b, buff) && l' <= BS_BUFF_SZ && b.slen + l' <= INT_MAX
    ensures ctx.src.data == old(ctx.src.data) || fresh(ctx.src.data)
    ensures ctx.dst.data == old(ctx.dst.data) || fresh(ctx.dst.data)
    ensures ctx.sInp.buff.data == old(ctx.sInp.buff.data) || fresh(ctx.sInp.buff.data)
    ensures b.data == old(b.data) || fresh(b.data)
    ensures b.Contents() == old(b.Contents() + buff[..l])
    ensures HandsOut(old(ctx.Ahead()), done, buff[..l'], ctx.Ahead())
    ensures l' == 0 ==> done && ctx.Ahead().bytes == [] && ctx.Ahead().bad == ctx.badlines
  {
    hide TotalOf, HandsOut;
    b.CatBlk(buff[..l]);
    var n := if INT_MAX - b.slen > BS_BUFF_SZ then BS_BUFF_SZ else INT_MAX - b.slen;
    l', done := ctx.DecodePart(buff, n);
  }

  /** The first n bytes of bytes and then more over and over again, or just bytes if more is empty. */
  function Reading(bytes: Text, more: Text, n: nat): (r: Text)
    ensures |r| <= n && (more != [] ==> |r| == n) && (more == [] && |bytes| <= n ==> r == bytes)
    decreases n - |bytes|
  {
    if |bytes| >= n then bytes[..n] else if more == [] then bytes else Reading(bytes + more, more, n)
  }

  lemma ReadingOn(bytes: Text, more: Text, n: nat)
    ensures Reading(bytes + more, more, n) == Reading(bytes, more, n)
  {
    assert bytes + [] == bytes;
    if |bytes| >= n {
      assert (bytes + more)[..n] == bytes[..n];
    }
  }

  /** What has been read, what stands in the buffer, and what is still due, after one more piece. */
  lemma ReadingStep(got: Text, held: Text, before: Total, done: bool, piece: Text, after: Total, n: nat)
    requires HandsOut(before, done, piece, after)
    ensures var more := LineBytes(before.unended);
            Reading(got + held + piece + after.bytes, more, n) == Reading(got + held + before.bytes, more, n)
    ensures piece + after.bytes == [] ==> before.bytes == [] && (done ==> LineBytes(before.unended) == [])
  {
    hide LineBytes, IsBad, Reading;
    var more := LineBytes(before.unended);
    var rest := if done then more else [];
    assert got + held + piece + after.bytes == got + held + (piece + after.bytes);
    assert got + held + (before.bytes + rest) == got + held + before.bytes + rest;
    ReadingOn(got + held + before.bytes, more, n);
    assert got + held + before.bytes + [] == got + held + before.bytes;
  }

  lemma ReadingIsFull(got: Text, held: Text, due: Text, more: Text, n: nat)
    requires |got| <= n <= |got + held|
    ensures Reading(got + held + due, more, n) == got + held[..n - |got|]
  {
    assert (got + held + due)[..n] == got + held[..n - |got|];
  }

  const INT_MAX := 0x7FFF_FFFF

  /**
    bsread (b, d, INT_MAX), where d is a stream over the decoder: b gets what the decoder hands out until nothing comes
    any more, or INT_MAX bytes. (No block is longer than that, so nothing is read into b directly.)
   */
  method ReadDecoded(ctx: UuCtx, b: Bstring) returns (ret: int)
    requires ctx.Valid() && b.Valid() && b.slen == 0 && b != ctx.src && b != ctx.dst && b != ctx.sInp.buff
    requires b.data != ctx.src.data && b.data != ctx.dst.data && b.data != ctx.sInp.buff.data
    modifies ctx`badlines, ctx.src, ctx.src.data, ctx.dst, ctx.dst.data
    modifies ctx.sInp`isEOF, ctx.sInp.buff, ctx.sInp.buff.data, ctx.sInp.core, b, b.data
    ensures b.Valid() && (b.data == old(b.data) || fresh(b.data))
    ensures b.Contents() == Reading(old(ctx.Ahead()).bytes, LineBytes(old(ctx.Ahead()).unended), INT_MAX)
    ensures Counted(old(ctx.Ahead()), ctx.badlines, b.slen < INT_MAX)
    ensures ret == if b.slen == 0 then BSTR_ERR else BSTR_OK
  {
    hide LineBytes, IsBad, HandsOut, Reading, Counted, Counting, UuCtx.Ahead;
    ghost var total, now := ctx.Ahead(), ctx.Ahead();
    ghost var u := LineBytes(total.unended);
    b.slen := 0;
    var buff := new byte[SnapUpSize(BS_BUFF_SZ + 1)];
    ghost var got, held: Text := b.Contents(), [];
    var l: nat, more: bool := 0, true;
    assert got + held + now.bytes == now.bytes;
    CountsUp(total);
    while more && l + b.slen < INT_MAX
      invariant ctx.Valid() && b.Valid() && Apart(ctx, b, buff) && fresh(buff) && l <= BS_BUFF_SZ <= buff.Length
      invariant ctx.src.data == old(ctx.src.data) || fresh(ctx.src.data)
      invariant ctx.dst.data == old(ctx.dst.data) || fresh(ctx.dst.data)
      invariant ctx.sInp.buff.data == old(ctx.sInp.buff.data) || fresh(ctx.sInp.buff.data)
      invariant b.data == old(b.data) || fresh(b.data)
      invariant now == ctx.Ahead() && got == b.Contents() && held == buff[..l] && |got| + l <= INT_MAX
      invariant Reading(got + held + now.bytes, u, INT_MAX) == Reading(total.bytes, u, INT_MAX)
      invariant now.unended == total.unended && Counting(total, now, !more)
      invariant !more ==> held == [] && now.bytes == [] && u == [] && ctx.badlines == now.bad && |got| < INT_MAX
      decreases more, INT_MAX - |got| - l
    {
      ghost var before, done := now, false;
      l, done := ReadOne(ctx, b, buff, l);
      ghost var piece := buff[..l];
      now := ctx.Ahead();
      ReadingStep(got, held, before, done, piece, now, INT_MAX);
      CountingStep(total, before, done, piece, now);
      got, held := b.Contents(), piece;
      more := l > 0;
    }
    AheadOfBad(ctx);
    CountingEnd(total, now, ctx.badlines, !more);
    if more {
      ReadingIsFull(got, held, now.bytes, u, INT_MAX);
      b.CatBlk(buff[..INT_MAX - b.slen]);
    } else {
      ReadingIsAll(got, held, now.bytes, INT_MAX);
    }
    return if b.slen == 0 then BSTR_ERR else BSTR_OK;
  }

  lemma ReadingIsAll(got: Text, held: Text, due: Text, n: nat)
    requires held == [] && due == [] && |got| < n
    ensures Reading(got + held + due, [], n) == got
  {
    assert got + held + due == got;
  }

  /** The bad lines as they are counted; the line without an end is counted whenever it is decoded. */
  ghost predicate Counting(total: Total, now: Total, ended: bool) {
    if IsBad(total.unended) then now.bad >= total.bad && (ended ==> now.bad > total.bad) else now.bad == total.bad
  }

  /** The counter in the end, and a bound on it where the reading stopped before. */
  ghost predicate Counted(total: Total, badlines: nat, ended: bool) {
    if IsBad(total.unended) then ended ==> badlines > total.bad
    else badlines <= total.bad && (ended ==> badlines == total.bad)
  }

  lemma CountsUp(total: Total)
    ensures Counting(total, total, false)
  {
  }

  lemma CountingStep(total: Total, before: Total, done: bool, piece: Text, after: Total)
    requires Counting(total, before, false) && before.unended == total.unended && HandsOut(before, done, piece, after)
    ensures Counting(total, after, done) && Counting(total, after, false) && after.unended == total.unended
  {
    hide IsBad, LineBytes;
  }

  lemma CountingEnd(total: Total, now: Total, badlines: nat, ended: bool)
    requires Counting(total, now, ended) && badlines <= now.bad && (ended ==> badlines == now.bad)
    ensures Counted(total, badlines, ended)
  {
    hide IsBad;
  }

  lemma AheadOfBad(ctx: UuCtx)
    requires ctx.Valid()
    ensures ctx.badlines <= ctx.Ahead().bad
  {
    hide BadLines, Lines, Unended;
  }

  /**
    bUuDecodeEx, with a counter for bad lines: what the lines with an end decode to, and behind it, until there are
    INT_MAX bytes, what stands behind the last line end, over and over again. Null is returned for nothing.
   */
  method BUuDecodeEx(src: Bstring) returns (b: Bstring?, badlines: nat)
    requires src.Valid()
    ensures var t := src.Contents();
            var bytes := Reading(Lines(t), LineBytes(Unended(t)), INT_MAX);
            && (b == null <==> bytes == [])
            && (b != null ==> fresh(b) && fresh(b.data) && b.Valid() && b.Contents() == bytes)
            && Counted(Total(Lines(t), BadLines(t), Unended(t)), badlines, |bytes| < INT_MAX)
  {
    hide TotalOf, LineBytes, IsBad, Reading, Counted, Lines, BadLines, Unended, UuCtx.Ahead;
    var text := src.data[..src.slen];
    var core := new CoreStream(text, _ => |text|);
    var s := new BStream(core);
    var d := new UuCtx(s);
    var res := new Bstring([]);
    AtStart(d, text);
    var ret := ReadDecoded(d, res);
    badlines := d.badlines;
    b := if ret < 0 then null else res;
  }

  lemma AtStart(ctx: UuCtx, text: Text)
    requires ctx.Valid() && ctx.dst.Contents() == [] && ctx.src.Contents() == [] && ctx.badlines == 0
    requires ctx.sInp.Pending() == text
    ensures ctx.Ahead() == Total(Lines(text), BadLines(text), Unended(text))
  {
    hide Lines, BadLines, Unended;
    assert [] + text == text && [] + Lines(text) == Lines(text);
  }

  lemma NoneCounted(bytes: Text, badlines: nat, ended: bool)
    requires Counted(Total(bytes, 0, []), badlines, ended)
    ensures badlines == 0
  {
    EmptyLine();
  }

  /** Every string but the empty one survives encoding and decoding, and no line is bad. (Lengths are ints.) */
  method EncodeThenDecode(src: Bstring) returns (b: Bstring?, badlines: nat)
    requires src.Valid() && src.slen <= INT_MAX
    ensures b == null <==> src.slen == 0
    ensures b != null ==> fresh(b) && fresh(b.data) && b.Valid() && b.Contents() == src.Contents()
    ensures badlines == 0
  {
    hide Lines, BadLines, Unended, LineBytes, IsBad, Encoded, Counted, Reading;
    var code := BUuEncode(src);
    LinesOfEncoded(src.Contents());
    EmptyLine();
    b, badlines := BUuDecodeEx(code);
    NoneCounted(src.Contents(), badlines, src.slen < INT_MAX);
  }

  lemma LineIsShort(line: Text)
    ensures |LineBytes(line)| <= UU_MAX_LINELEN
  {
  }

  /** The decoder has handed out all lines that have an end, and its input is at its end. */
  ghost predicate AtEnd(ctx: UuCtx)
    requires ctx.Valid()
    reads ctx, ctx.src, ctx.src.data, ctx.dst, ctx.dst.data, ctx.sInp, ctx.sInp.buff, ctx.sInp.buff.data, ctx.sInp.core
  {
    ctx.dst.slen == 0 && ctx.sInp.Pending() == [] && NextBreak(ctx.src.Contents(), 0, EOL) == ctx.src.slen
  }

  /** From there on each call hands out the bytes of a last line without an end once more. */
  method SameLineAgain(ctx: UuCtx, buff: array<byte>, calls: nat) returns (pieces: seq<Text>)
    requires ctx.Valid() && AtEnd(ctx) && buff.Length == BS_BUFF_SZ
    requires buff != ctx.src.data && buff != ctx.dst.data && buff != ctx.sInp.buff.data
    modifies ctx`badlines, ctx.src, ctx.src.data, ctx.dst, ctx.dst.data
    modifies ctx.sInp`isEOF, ctx.sInp.buff, ctx.sInp.buff.data, ctx.sInp.core, buff
    ensures ctx.Valid() && AtEnd(ctx) && ctx.src.Contents() == old(ctx.src.Contents())
    ensures |pieces| == calls && forall k :: 0 <= k < calls ==> pieces[k] == LineBytes(old(ctx.src.Contents()))
  {
    hide LineBytes, IsBad, NextBreak, TotalOf;
    pieces := [];
    ghost var line := ctx.src.Contents();
    LineIsShort(line);
    for c := 0 to calls
      invariant ctx.Valid() && AtEnd(ctx) && ctx.src.Contents() == line
      invariant buff != ctx.src.data && buff != ctx.dst.data && buff != ctx.sInp.buff.data
      invariant ctx.src.data == old(ctx.src.data) || fresh(ctx.src.data)
      invariant ctx.dst.data == old(ctx.dst.data) || fresh(ctx.dst.data)
      invariant ctx.sInp.buff.data == old(ctx.sInp.buff.data) || fresh(ctx.sInp.buff.data)
      invariant |pieces| == c && forall k :: 0 <= k < c ==> pieces[k] == LineBytes(line)
    {
      NoLine([], ctx.badlines, line);
      assert line + [] == line && ctx.dst.Contents() == [];
      var n, done := ctx.DecodePart(buff, BS_BUFF_SZ);
      ghost var piece := buff[..n];
      assert [] + LineBytes(line) == LineBytes(line) && piece + [] == piece;
      pieces := pieces + [buff[..n]];
    }
  }

  /** From wherever it stands, a decoder comes there, if it is called until a call fills less than its block. */
  method LastLineOnly(ctx: UuCtx, buff: array<byte>, calls: nat) returns (pieces: seq<Text>)
    requires ctx.Valid() && buff.Length == BS_BUFF_SZ
    requires buff != ctx.src.data && buff != ctx.dst.data && buff != ctx.sInp.buff.data
    modifies ctx`badlines, ctx.src, ctx.src.data, ctx.dst, ctx.dst.data
    modifies ctx.sInp`isEOF, ctx.sInp.buff, ctx.sInp.buff.data, ctx.sInp.core, buff
    ensures ctx.Valid() && AtEnd(ctx) && ctx.src.Contents() == old(ctx.Ahead().unended)
    ensures |pieces| == calls && forall k :: 0 <= k < calls ==> pieces[k] == LineBytes(old(ctx.Ahead().unended))
  {
    hide LineBytes, IsBad, NextBreak, TotalOf, HandsOut, AtEnd;
    ghost var now := ctx.Ahead();
    ghost var unended := now.unended;
    var more := true;
    while more
      invariant ctx.Valid() && buff != ctx.src.data && buff != ctx.dst.data && buff != ctx.sInp.buff.data
      invariant ctx.src.data == old(ctx.src.data) || fresh(ctx.src.data)
      invariant ctx.dst.data == old(ctx.dst.data) || fresh(ctx.dst.data)
      invariant ctx.sInp.buff.data == old(ctx.sInp.buff.data) || fresh(ctx.sInp.buff.data)
      invariant now == ctx.Ahead() && now.unended == unended
      invariant !more ==> AtEnd(ctx) && ctx.src.Contents() == unended
      decreases more, |now.bytes|
    {
      ghost var before := now;
      var n, done := ctx.DecodePart(buff, BS_BUFF_SZ);
      now := ctx.Ahead();
      LessAhead(before, done, buff[..n], now);
      more := n == BS_BUFF_SZ;
      if !more {
        AllHandedOut(ctx);
      }
    }
    pieces := SameLineAgain(ctx, buff, calls);
  }

  lemma LessAhead(before: Total, done: bool, piece: Text, after: Total)
    requires HandsOut(before, done, piece, after)
    ensures after.unended == before.unended
    ensures |piece| == BS_BUFF_SZ ==> |after.bytes| < |before.bytes|
  {
    hide LineBytes, IsBad;
    LineIsShort(before.unended);
    assert |piece + after.bytes| == |piece| + |after.bytes|;
  }

  lemma AllHandedOut(ctx: UuCtx)
    requires ctx.Valid() && ctx.dst.Contents() == [] && ctx.sInp.Pending() == []
    requires ctx.Ahead() == Total(ctx.dst.Contents(), ctx.badlines, ctx.src.Contents())
    ensures AtEnd(ctx) && ctx.src.Contents() == ctx.Ahead().unended
  {
    hide Lines, BadLines, NextBreak;
    var s := ctx.src.Contents();
    assert s + [] == s;
    UnendedIsAll(s);
  }

  lemma UnendedIsAll(s: Text)
    requires Unended(s) == s
    ensures NextBreak(s, 0, EOL) == |s|
  {
    hide NextBreak;
    var i := NextBreak(s, 0, EOL);
    if i < |s| {
      UnendedIsNoLonger(s[i + 1..]);
    }
  }

  lemma {:induction false} UnendedIsNoLonger(s: Text)
    ensures |Unended(s)| <= |s|
    decreases |s|
  {
    hide NextBreak;
    var i := NextBreak(s, 0, EOL);
    if i < |s| {
      UnendedIsNoLonger(s[i + 1..]);
    }
  }

  /**
    A decoder for a text with something behind its last line end that decodes to at least a byte: however it got where
    it is and however often it is called, each call hands out something. It never comes to its end.
   */
  method LastLineAgain(ctx: UuCtx, buff: array<byte>, tsz: nat, calls: nat) returns (pieces: seq<Text>)
    requires ctx.Valid() && 0 < tsz <= buff.Length && LineBytes(ctx.Ahead().unended) != []
    requires buff != ctx.src.data && buff != ctx.dst.data && buff != ctx.sInp.buff.data
    modifies ctx`badlines, ctx.src, ctx.src.data, ctx.dst, ctx.dst.data
    modifies ctx.sInp`isEOF, ctx.sInp.buff, ctx.sInp.buff.data, ctx.sInp.core, buff
    ensures ctx.Valid() && ctx.Ahead().unended == old(ctx.Ahead().unended)
    ensures |pieces| == calls && forall k :: 0 <= k < calls ==> pieces[k] != []
  {
    hide *;
    pieces := [];
    ghost var unended := ctx.Ahead().unended;
    for c := 0 to calls
      invariant ctx.Valid() && ctx.Ahead().unended == unended
      invariant buff != ctx.src.data && buff != ctx.dst.data && buff != ctx.sInp.buff.data
      invariant ctx.src.data == old(ctx.src.data) || fresh(ctx.src.data)
      invariant ctx.dst.data == old(ctx.dst.data) || fresh(ctx.dst.data)
      invariant ctx.sInp.buff.data == old(ctx.sInp.buff.data) || fresh(ctx.sInp.buff.data)
      invariant |pieces| == c && forall k :: 0 <= k < c ==> pieces[k] != []
    {
      ghost var before := ctx.Ahead();
      var n, done := ctx.DecodePart(buff, tsz);
      NeverNothing(before, done, buff[..n], ctx.Ahead());
      pieces := pieces + [buff[..n]];
    }
  }

  lemma NeverNothing(before: Total, done: bool, piece: Text, after: Total)
    requires HandsOut(before, done, piece, after)
    ensures after.unended == before.unended
    ensures LineBytes(before.unended) != [] && (piece == [] ==> done && after.bytes == []) ==> piece != []
  {
    hide LineBytes, IsBad;
  }

  /** Such a text: the length of one byte, and two characters for it. */
  lemma LineWithoutEnd()
    ensures LineBytes(Unended([33, 48, 48])) == [65]
  {
  }
}
