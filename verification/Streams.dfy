/** Buffered reading from a core stream that hands out its content in chunks of its own choosing. */
module Streams {
  import opened Bytes
  import opened Bstrings
  import opened Split

  const BS_BUFF_SZ := 1024
  const QUESTION: byte := 63

  /** A core stream: its read function returns at least one byte unless nothing is left. */
  class CoreStream {
    const content: Text
    const chunk: nat -> nat   // how many bytes the read function would like to return, call by call
    var at: nat
    var calls: nat

    predicate Valid()
      reads this
    {
      at <= |content|
    }

    /** What has not been read yet. */
    function Rest(): Text
      requires Valid()
      reads this
    {
      content[at..]
    }

    constructor (content: Text, chunk: nat -> nat)
      ensures Valid() && Rest() == content
    {
      this.content, this.chunk := content, chunk;
      at, calls := 0, 0;
    }

    /** readFnPtr (a + ofs, 1, n, parm) */
    method Read(a: array<byte>, ofs: nat, n: nat) returns (l: nat)
      requires Valid() && n > 0 && ofs + n <= a.Length
      modifies this, a
      ensures Valid() && l <= n && l <= old(|Rest()|)
      ensures l == 0 <==> old(Rest()) == []
      ensures Rest() == old(Rest())[l..]
      ensures a[..ofs] == old(a[..ofs]) && a[ofs..ofs + l] == old(Rest())[..l]
    {
      var wish := chunk(calls);
      calls := calls + 1;
      l := if wish == 0 then 1 else wish;
      l := if l > n then n else l;
      l := if l > |content| - at then |content| - at else l;
      ghost var rest := content[at..];
      assert content[at..|content|] == rest && rest[0..l] == rest[..l];
      SliceOfSlice(content, at, |content|, 0, l);
      MemCpy(a, ofs, content[at..at + l]);
      at := at + l;
    }
  }

  /** The part of s up to and including its first terminator, or all of s. */
  function FirstLine(s: Text, terms: set<byte>): (t: Text)
    ensures t <= s
  {
    var i := NextBreak(s, 0, terms);
    if i < |s| then s[..i + 1] else s
  }

  lemma LineInFront(held: Text, rest: Text, terms: set<byte>)
    requires NextBreak(held, 0, terms) < |held|
    ensures var n := NextBreak(held, 0, terms) + 1;
            FirstLine(held + rest, terms) == held[..n] && (held + rest)[n..] == held[n..] + rest
  {
    NextBreakIs(held + rest, 0, terms, NextBreak(held, 0, terms));
  }

  lemma LineBeyond(held: Text, rest: Text, terms: set<byte>)
    requires NextBreak(held, 0, terms) == |held|
    ensures FirstLine(held + rest, terms) == held + FirstLine(rest, terms)
  {
    var i := NextBreak(rest, 0, terms);
    NextBreakIs(held + rest, 0, terms, |held| + i);
    if i < |rest| {
      assert (held + rest)[..|held| + i + 1] == held + rest[..i + 1];
    }
  }

  class BStream {
    var buff: Bstring
    const core: CoreStream
    var isEOF: bool
    var maxBuffSz: nat

    ghost predicate Valid()
      reads this, buff, core
    {
      && buff.Valid() && core.Valid() && maxBuffSz > 0
      && (isEOF ==> core.Rest() == [])
    }

    /** What readers will still be given: the buffer, then what the core has not handed out yet. */
    ghost function Pending(): Text
      requires Valid()
      reads this, buff, buff.data, core
    {
      buff.Contents() + core.Rest()
    }

    /** bsopen */
    constructor (core: CoreStream)
      requires core.Valid()
      ensures Valid() && fresh(buff) && fresh(buff.data) && this.core == core
      ensures Pending() == core.Rest()
    {
      this.core := core;
      buff := new Bstring([]);
      isEOF := false;
      maxBuffSz := BS_BUFF_SZ;
    }

    /** bsunread */
    method Unread(b: Text)
      requires Valid()
      modifies buff, buff.data
      ensures Valid() && (buff.data == old(buff.data) || fresh(buff.data))
      ensures Pending() == b + old(Pending())
    {
      var _ := buff.InsertBlk(0, b, QUESTION);
      assert old(buff.Contents())[..0] + b + old(buff.Contents())[0..] == b + old(buff.Contents());
    }

    /**
      bsreadlnsa, once the terminators are flagged: appends to r what comes up to and including the first
      terminator, or everything that is left.
     */
    method ReadLine(r: Bstring, cf: CharField, sentinel: byte, ghost terms: set<byte>) returns (ret: int)
      requires Valid() && r.Valid() && r != buff && r.data != buff.data
      requires Flags(cf, terms) && sentinel in terms
      modifies this`isEOF, buff, buff.data, core, r, r.data
      ensures Valid() && (buff.data == old(buff.data) || fresh(buff.data))
      ensures r.Valid() && r.Terminated() && (r.data == old(r.data) || fresh(r.data)) && r.data != buff.data
      ensures r.Contents() == old(r.Contents()) + FirstLine(old(Pending()), terms)
      ensures Pending() == old(Pending())[|FirstLine(old(Pending()), terms)|..]
      ensures ret == if old(Pending()) == [] then BSTR_ERR else BSTR_OK
    {
      hide NextBreak, Flags, FirstLine;
      var l := buff.slen;
      var i := FindInBuffer(cf, sentinel, terms);
      if i < l {
        LineInFront(buff.Contents(), core.Rest(), terms);
        MoveFront(r, i + 1);
        return BSTR_OK;
      }
      ret := ReadBeyond(r, cf, sentinel, terms);
    }

    /** The buffer has no terminator: it is delivered, and the line goes on in the core. */
    method ReadBeyond(r: Bstring, cf: CharField, sentinel: byte, ghost terms: set<byte>) returns (ret: int)
      requires Valid() && r.Valid() && r != buff && r.data != buff.data
      requires Flags(cf, terms) && sentinel in terms && maxBuffSz < buff.data.Length
      requires NextBreak(buff.Contents(), 0, terms) == buff.slen
      modifies this`isEOF, buff, buff.data, core, r, r.data
      ensures Valid() && buff.data == old(buff.data)
      ensures r.Valid() && r.Terminated() && (r.data == old(r.data) || fresh(r.data)) && r.data != buff.data
      ensures r.Contents() == old(r.Contents()) + FirstLine(old(Pending()), terms)
      ensures Pending() == old(Pending())[|FirstLine(old(Pending()), terms)|..]
      ensures ret == if old(Pending()) == [] then BSTR_ERR else BSTR_OK
    {
      hide NextBreak, Flags, FirstLine;
      ghost var pending, before, held, rest := Pending(), r.Contents(), buff.Contents(), core.Rest();
      LineBeyond(held, rest, terms);
      LineOfNone(pending, terms);
      var rlo := r.slen;
      r.CatBlk(buff.data[..buff.slen]);
      assert r.Contents() == before + held;
      ReadLineFromCore(r, cf, sentinel, terms);
      Delivered(before, held, rest, |FirstLine(rest, terms)|, [], FirstLine(pending, terms));
      assert rest + [] == rest;
      return if r.slen == rlo then BSTR_ERR else BSTR_OK;
    }

    /** The first n bytes of the buffer are delivered and deleted. */
    method MoveFront(r: Bstring, n: nat)
      requires buff.Valid() && r.Valid() && r != buff && r.data != buff.data && n <= buff.slen
      modifies buff, buff.data, r, r.data
      ensures buff.Valid() && buff.data == old(buff.data)
      ensures r.Valid() && (n > 0 ==> r.Terminated()) && (r.data == old(r.data) || fresh(r.data)) && r.data != buff.data
      ensures r.Contents() == old(r.Contents()) + old(buff.Contents())[..n]
      ensures buff.Contents() == old(buff.Contents())[n..]
    {
      r.CatBlk(buff.data[..n]);
      var _ := buff.Delete(0, n);
    }

    /** Makes room in the buffer, sets the sentinel behind its content and looks for a terminator. */
    method FindInBuffer(cf: CharField, sentinel: byte, ghost terms: set<byte>) returns (i: nat)
      requires buff.Valid() && Flags(cf, terms) && sentinel in terms
      modifies buff, buff.data
      ensures buff.Valid() && (buff.data == old(buff.data) || fresh(buff.data)) && buff.slen == old(buff.slen)
      ensures buff.Contents() == old(buff.Contents()) && maxBuffSz < buff.data.Length
      ensures i == NextBreak(buff.Contents(), 0, terms)
    {
      hide NextBreak, Flags;
      var _ := buff.Alloc(maxBuffSz + 1);
      buff.data[buff.slen] := sentinel;
      assert buff.data[0..0 + buff.slen] == buff.Contents();
      i := FindFlag(buff.data, 0, buff.slen, cf, sentinel, terms);
    }

    /**
      The direct reads into the destination; what was read too far goes to the buffer, whose old content is
      already delivered.
     */
    method ReadLineFromCore(r: Bstring, cf: CharField, sentinel: byte, ghost terms: set<byte>)
      requires Valid() && r.Valid() && r != buff && r.data != buff.data
      requires Flags(cf, terms) && sentinel in terms && maxBuffSz < buff.data.Length
      modifies this`isEOF, buff, buff.data, core, r, r.data
      ensures Valid() && buff.data == old(buff.data)
      ensures r.Valid() && r.Terminated() && (r.data == old(r.data) || fresh(r.data)) && r.data != buff.data
      ensures r.Contents() == old(r.Contents()) + FirstLine(old(core.Rest()), terms)
      ensures Pending() == old(core.Rest())[|FirstLine(old(core.Rest()), terms)|..]
    {
      hide NextBreak, Flags, FirstLine;
      ghost var before, all := r.Contents(), core.Rest();
      var l, i, taken, chunk := ReadUntil(r, cf, sentinel, terms);
      ghost var rest := core.Rest();
      if l <= 0 {
        EndHere(r);
        Delivered(before, taken, chunk, 0, rest, taken);
        assert buff.Contents() + core.Rest() == chunk + rest;
      } else {
        LineInFront(chunk, rest, terms);
        Delivered(before, taken, chunk, i + 1, rest, FirstLine(all, terms));
        PushBack(r, l, i + 1, chunk);
        assert buff.Contents() + core.Rest() == chunk[i + 1..] + rest;
      }
    }

    /** The core has nothing more. */
    method EndHere(r: Bstring)
      requires buff.Valid() && r.Valid() && r != buff && r.data != buff.data && r.slen < r.data.Length
      modifies this`isEOF, buff, r.data
      ensures isEOF && buff.Valid() && buff.data == old(buff.data) && buff.Contents() == []
      ensures r.Valid() && r.Terminated() && r.Contents() == old(r.Contents())
    {
      r.data[r.slen] := 0;
      buff.slen := 0;
      isEOF := true;
    }

    /**
      Reads whole chunks into r until the last one, of length l, has a terminator, at its index i, or is empty.
      That last chunk stands behind the contents of r.
     */
    method ReadUntil(r: Bstring, cf: CharField, sentinel: byte, ghost terms: set<byte>)
      returns (l: nat, i: nat, ghost taken: Text, ghost chunk: Text)
      requires core.Valid() && r.Valid() && maxBuffSz > 0
      requires Flags(cf, terms) && sentinel in terms
      modifies core, r, r.data
      ensures core.Valid() && r.Valid() && (r.data == old(r.data) || fresh(r.data))
      ensures r.Contents() == old(r.Contents()) + taken
      ensures old(core.Rest()) == taken + (chunk + core.Rest())
      ensures l == |chunk| <= maxBuffSz && r.slen + l < r.data.Length && r.data[r.slen..r.slen + l] == chunk
      ensures l == 0 ==> core.Rest() == [] && FirstLine(old(core.Rest()), terms) == taken
      ensures l > 0 ==> i < l && i == NextBreak(chunk, 0, terms)
                        && FirstLine(old(core.Rest()), terms) == taken + FirstLine(chunk + core.Rest(), terms)
    {
      hide NextBreak, Flags, FirstLine, LineTaken;
      ghost var before, all, rest := r.Contents(), core.Rest(), core.Rest();
      ghost var got := before;
      taken := [];
      NothingTaken(before, all, terms);
      l, i := ReadChunk(r, cf, sentinel, terms);
      chunk := rest[..l];
      while l > 0 && i >= l
        invariant core.Valid() && r.Valid() && (r.data == old(r.data) || fresh(r.data))
        invariant l <= maxBuffSz && l <= |rest| && chunk == rest[..l] && i == NextBreak(chunk, 0, terms)
        invariant l == 0 <==> rest == []
        invariant core.Rest() == rest[l..]
        invariant l > 0 && i >= l ==> r.Contents() == got + chunk
        invariant l == 0 || i < l ==>
                    r.Contents() == got && r.slen + l < r.data.Length && r.data[r.slen..r.slen + l] == chunk
        invariant LineTaken(before, got, all, taken, rest, terms)
        decreases |rest|
      {
        ChunkTaken(before, got, all, taken, rest, l, terms);
        got, taken, rest := got + chunk, taken + chunk, rest[l..];
        l, i := ReadChunk(r, cf, sentinel, terms);
        chunk := rest[..l];
      }
      AllTaken(before, got, all, taken, rest, l, terms);
    }

    /**
      One read of the core behind the contents of r, with the sentinel set behind what was read. A chunk without
      a terminator is added to r at once.
     */
    method ReadChunk(r: Bstring, cf: CharField, sentinel: byte, ghost terms: set<byte>) returns (l: nat, i: nat)
      requires core.Valid() && r.Valid() && maxBuffSz > 0
      requires Flags(cf, terms) && sentinel in terms
      modifies core, r, r.data
      ensures core.Valid() && r.Valid() && (r.data == old(r.data) || fresh(r.data))
      ensures l <= maxBuffSz && l <= |old(core.Rest())|
      ensures l == 0 <==> old(core.Rest()) == []
      ensures core.Rest() == old(core.Rest())[l..]
      ensures i == NextBreak(old(core.Rest())[..l], 0, terms)
      ensures l == 0 || i < l ==>
                r.Contents() == old(r.Contents())
                && r.slen + l < r.data.Length && r.data[r.slen..r.slen + l] == old(core.Rest())[..l]
      ensures l > 0 && i >= l ==> r.Contents() == old(r.Contents()) + old(core.Rest())[..l]
    {
      hide NextBreak, Flags;
      l := FillChunk(r, sentinel);
      FrontOfArray(r.data, r.slen, r.slen + l);
      i := FindFlag(r.data, r.slen, l, cf, sentinel, terms);
      if l > 0 && i >= l {
        r.slen := r.slen + l;
      }
    }

    /** Makes room behind the contents of r, reads into it and sets the sentinel behind what was read. */
    method FillChunk(r: Bstring, sentinel: byte) returns (l: nat)
      requires core.Valid() && r.Valid() && maxBuffSz > 0
      modifies core, r, r.data
      ensures core.Valid() && r.Valid() && (r.data == old(r.data) || fresh(r.data))
      ensures r.Contents() == old(r.Contents())
      ensures l <= maxBuffSz && l <= |old(core.Rest())|
      ensures l == 0 <==> old(core.Rest()) == []
      ensures core.Rest() == old(core.Rest())[l..]
      ensures r.slen + l < r.data.Length && r.data[r.slen..r.slen + l] == old(core.Rest())[..l]
      ensures r.data[r.slen + l] == sentinel
    {
      var _ := r.Alloc(r.slen + maxBuffSz + 1);
      l := core.Read(r.data, r.slen, maxBuffSz);
      ghost var chunk := r.data[r.slen..r.slen + l];
      r.data[r.slen + l] := sentinel;
      assert r.data[r.slen..r.slen + l] == chunk;
    }

    /** Of the l bytes behind the contents of r, the first n are delivered and the others go to the buffer. */
    method PushBack(r: Bstring, l: nat, n: nat, ghost chunk: Text)
      requires buff.Valid() && r.Valid() && r != buff && r.data != buff.data
      requires n <= l < buff.data.Length && r.slen + l < r.data.Length
      requires r.data[r.slen..r.slen + l] == chunk
      modifies buff, buff.data, r, r.data
      ensures buff.Valid() && buff.data == old(buff.data) && r.Valid() && r.Terminated() && r.data == old(r.data)
      ensures r.Contents() == old(r.Contents()) + chunk[..n]
      ensures buff.Contents() == chunk[n..]
    {
      buff.slen := l - n;
      assert r.data[r.slen + n..r.slen + l] == chunk[n..];
      assert r.data[..r.slen + n] == r.data[..r.slen] + chunk[..n];
      MemCpy(buff.data, 0, r.data[r.slen + n..r.slen + l]);
      r.slen := r.slen + n;
      r.data[r.slen] := 0;
    }

    /** bsreadlna */
    method Bsreadlna(r: Bstring, terminator: byte) returns (ret: int)
      requires Valid() && r.Valid() && r != buff && r.data != buff.data
      modifies this`isEOF, buff, buff.data, core, r, r.data
      ensures Valid() && (buff.data == old(buff.data) || fresh(buff.data))
      ensures r.Valid() && r.Terminated() && (r.data == old(r.data) || fresh(r.data)) && r.data != buff.data
      ensures r.Contents() == old(r.Contents()) + FirstLine(old(Pending()), {terminator})
      ensures Pending() == old(Pending())[|FirstLine(old(Pending()), {terminator})|..]
      ensures ret == if old(Pending()) == [] then BSTR_ERR else BSTR_OK
    {
      var cf := BuildCharField([terminator]);
      assert CharsOf([terminator]) == {terminator};
      ret := ReadLine(r, cf, terminator, {terminator});
    }

    /** bsreadlnsa */
    method Bsreadlnsa(r: Bstring, term: Text) returns (ret: int)
      requires Valid() && r.Valid() && r != buff && r.data != buff.data
      modifies this`isEOF, buff, buff.data, core, r, r.data
      ensures Valid() && (buff.data == old(buff.data) || fresh(buff.data))
      ensures r.Valid() && (r.data == old(r.data) || fresh(r.data)) && r.data != buff.data
      ensures term == [] ==>
                ret == BSTR_ERR && r.Contents() == old(r.Contents()) && Pending() == old(Pending())
      ensures term != [] ==>
                && r.Contents() == old(r.Contents()) + FirstLine(old(Pending()), CharsOf(term))
                && Pending() == old(Pending())[|FirstLine(old(Pending()), CharsOf(term))|..]
                && ret == if old(Pending()) == [] then BSTR_ERR else BSTR_OK
    {
      if |term| == 1 {
        assert CharsOf(term) == {term[0]};
        ret := Bsreadlna(r, term[0]);
        return;
      }
      if |term| < 1 {
        return BSTR_ERR;
      }
      var cf := BuildCharField(term);
      ret := ReadLine(r, cf, term[0], CharsOf(term));
    }

    /** bsreada: appends at most n bytes to r, and none only if nothing is left. */
    method Bsreada(r: Bstring, n: nat) returns (ret: int)
      requires Valid() && r.Valid() && r != buff && r.data != buff.data
      modifies this`isEOF, buff, buff.data, core, r, r.data
      ensures Valid() && (buff.data == old(buff.data) || fresh(buff.data))
      ensures r.Valid() && (r.data == old(r.data) || fresh(r.data)) && r.data != buff.data
      ensures var d := r.slen - old(r.slen);
              && 0 <= d <= n && d <= |old(Pending())|
              && r.Contents() == old(r.Contents()) + old(Pending())[..d]
              && Pending() == old(Pending())[d..]
              && ret == (if d == 0 then BSTR_ERR else BSTR_OK)
              && (d == 0 <==> n == 0 || old(Pending()) == [])
              && (old(buff.slen > 0 || r.data.Length <= n + r.slen) ==> d == n || d == |old(Pending())|)
    {
      if n <= 0 {
        return BSTR_ERR;
      }
      if buff.slen == 0 {
        if isEOF {
          return BSTR_ERR;
        }
        if r.data.Length > n + r.slen {
          ret := ReadDirect(r, n);
          return;
        }
      }
      ret := ReadThroughBuffer(r, n);
    }

    /** One read of the core into the room behind the contents of r. */
    method ReadDirect(r: Bstring, n: nat) returns (ret: int)
      requires Valid() && r.Valid() && r != buff && r.data != buff.data
      requires 0 < n && n + r.slen < r.data.Length && buff.slen == 0
      modifies this`isEOF, core, r, r.data
      ensures Valid() && r.Valid() && r.data == old(r.data)
      ensures var d := r.slen - old(r.slen);
              && 0 <= d <= n && d <= |old(core.Rest())|
              && r.Contents() == old(r.Contents()) + old(core.Rest())[..d]
              && core.Rest() == old(core.Rest())[d..]
              && ret == (if d == 0 then BSTR_ERR else BSTR_OK)
              && (d == 0 <==> old(core.Rest()) == [])
    {
      var l := core.Read(r.data, r.slen, n);
      if l <= 0 {
        isEOF := true;
        return BSTR_ERR;
      }
      FrontOfArray(r.data, r.slen, r.slen + l);
      r.slen := r.slen + l;
      r.data[r.slen] := 0;
      return BSTR_OK;
    }

    /** Delivers the buffer, and goes on filling it from the core, until n bytes are delivered or none are left. */
    method ReadThroughBuffer(r: Bstring, n: nat) returns (ret: int)
      requires Valid() && r.Valid() && r != buff && r.data != buff.data && n > 0
      modifies this`isEOF, buff, buff.data, core, r, r.data
      ensures Valid() && (buff.data == old(buff.data) || fresh(buff.data))
      ensures r.Valid() && (r.data == old(r.data) || fresh(r.data)) && r.data != buff.data
      ensures Took(old(r.Contents()), old(Pending()), r.Contents(), Pending(), n, ret)
    {
      hide Took;
      ghost var before, pending := r.Contents(), Pending();
      var orslen, end := r.slen, n + r.slen;
      var _ := buff.Alloc(maxBuffSz + 1);
      var l, d := FillUp(r, end, pending);
      buff.slen := l;
      TakeLast(r, end, before, pending, d, n);
      return if r.slen == orslen then BSTR_ERR else BSTR_OK;
    }

    /** The front of the buffer, as far as it is wanted. */
    method TakeLast(r: Bstring, end: nat, ghost before: Text, ghost pending: Text, ghost d: nat, ghost n: nat)
      requires core.Valid() && buff.Valid() && maxBuffSz > 0 && r.Valid() && r != buff && r.data != buff.data
      requires isEOF ==> core.Rest() == []
      requires d <= |pending| && pending[d..] == buff.Contents() + core.Rest()
      requires r.Contents() == before + pending[..d] && end == |before| + n && d < n
      requires buff.slen + r.slen < end ==> buff.slen == 0 && core.Rest() == []
      modifies this`isEOF, buff, buff.data, r, r.data
      ensures Valid() && buff.data == old(buff.data)
      ensures r.Valid() && (r.data == old(r.data) || fresh(r.data)) && r.data != buff.data
      ensures var ret := if r.slen == |before| then BSTR_ERR else BSTR_OK;
              Took(before, pending, r.Contents(), Pending(), n, ret)
    {
      hide Took;
      if buff.slen + r.slen >= end {
        TookPart(before, pending, d, buff.Contents(), core.Rest(), n);
        MoveFront(r, end - r.slen);
      } else {
        TookAll(before, pending, d, buff.Contents(), core.Rest(), n);
        isEOF := true;
      }
    }

    /**
      Delivers l bytes of the buffer and reads the next l over them, until they reach to the end or none come.
     */
    method FillUp(r: Bstring, end: nat, ghost pending: Text) returns (l: nat, ghost d: nat)
      requires core.Valid() && buff.Valid() && r.Valid() && r.data != buff.data && maxBuffSz > 0
      requires maxBuffSz < buff.data.Length && r.slen < end
      requires pending == buff.Contents() + core.Rest()
      modifies buff.data, core, r, r.data
      ensures core.Valid() && r.Valid() && (r.data == old(r.data) || fresh(r.data))
      ensures l < buff.data.Length && d <= |pending| && r.slen == old(r.slen) + d < end
      ensures r.Contents() == old(r.Contents()) + pending[..d]
      ensures pending[d..] == buff.data[..l] + core.Rest()
      ensures l + r.slen < end ==> l == 0 && core.Rest() == []
      ensures |core.Rest()| <= |old(core.Rest())|
    {
      l, d := buff.slen, 0;
      ghost var before, got, held, rest := r.Contents(), r.Contents(), buff.Contents(), core.Rest();
      var more := true;
      while more && l + r.slen < end
        invariant core.Valid() && l < buff.data.Length
        invariant r.Valid() && (r.data == old(r.data) || fresh(r.data))
        invariant got == r.Contents() && held == buff.data[..l] && rest == core.Rest()
        invariant |got| == |before| + d < end && d <= |pending|
        invariant got == before + pending[..d] && pending[d..] == held + rest
        invariant !more ==> l == 0 && rest == []
        invariant |rest| <= |old(core.Rest())|
        decreases more, |rest|
      {
        Onward(before, pending, d, held, rest);
        l := Refill(r, l, end);
        more := l > 0;
        d, got, held, rest := d + |held|, got + held, buff.data[..l], core.Rest();
      }
    }

    /** Delivers the first l bytes of the buffer and reads the next ones over them. */
    method Refill(r: Bstring, l: nat, end: nat) returns (l': nat)
      requires core.Valid() && r.Valid() && r.data != buff.data && maxBuffSz > 0
      requires l < buff.data.Length && maxBuffSz < buff.data.Length && l + r.slen < end
      modifies buff.data, core, r, r.data
      ensures core.Valid() && r.Valid() && (r.data == old(r.data) || fresh(r.data))
      ensures r.Contents() == old(r.Contents()) + old(buff.data[..l])
      ensures l' <= maxBuffSz && l' + |core.Rest()| == |old(core.Rest())|
      ensures buff.data[..l'] + core.Rest() == old(core.Rest())
      ensures l' == 0 <==> old(core.Rest()) == []
    {
      r.CatBlk(buff.data[..l]);
      var n := end - r.slen;
      n := if n > maxBuffSz then maxBuffSz else n;
      l' := core.Read(buff.data, 0, n);
      assert buff.data[0..0 + l'] == buff.data[..l'];
    }

    /** The loop that runs to the sentinel at the latest. */
    method FindFlag(b: array<byte>, ofs: nat, l: nat, cf: CharField, sentinel: byte, ghost terms: set<byte>)
      returns (i: nat)
      requires ofs + l < b.Length && b[ofs + l] == sentinel && Flags(cf, terms) && sentinel in terms
      ensures i == NextBreak(b[ofs..ofs + l], 0, terms)
    {
      ghost var s := b[ofs..ofs + l];
      i := 0;
      while !cf[b[ofs + i]]
        invariant 0 <= i <= l
        invariant forall k :: 0 <= k < i ==> s[k] !in terms
        decreases l - i
      {
        assert s[i] == b[ofs + i];
        i := i + 1;
      }
      assert i < l ==> s[i] == b[ofs + i];
      NextBreakIs(s, 0, terms, i);
    }
  }

  /** Of the n bytes asked for, all that are left or n were taken. */
  ghost predicate Took(before: Text, pending: Text, after: Text, left: Text, n: nat, ret: int) {
    var d := |after| - |before|;
    && (d == n || d == |pending|) && 0 <= d <= n && d <= |pending|
    && after == before + pending[..d] && left == pending[d..]
    && ret == if d == 0 then BSTR_ERR else BSTR_OK
  }

  lemma TookPart(before: Text, pending: Text, d: nat, held: Text, rest: Text, n: nat)
    requires d <= |pending| && pending[d..] == held + rest && d < n <= d + |held|
    ensures Took(before, pending, before + pending[..d] + held[..n - d], held[n - d..] + rest, n, BSTR_OK)
  {
    Onward(before, pending, d, held[..n - d], held[n - d..] + rest);
  }

  lemma TookAll(before: Text, pending: Text, d: nat, held: Text, rest: Text, n: nat)
    requires d <= |pending| && pending[d..] == held + rest && d < n && held == [] == rest
    ensures var ret := if d == 0 then BSTR_ERR else BSTR_OK;
            Took(before, pending, before + pending[..d], held + rest, n, ret)
  {
  }

  lemma Delivered(before: Text, taken: Text, chunk: Text, n: nat, rest: Text, line: Text)
    requires n <= |chunk| && line == taken + chunk[..n]
    ensures before + taken + chunk[..n] == before + line
    ensures chunk[n..] + rest == (taken + (chunk + rest))[|line|..]
  {
  }

  lemma Onward(before: Text, pending: Text, d: nat, held: Text, rest: Text)
    requires d <= |pending| && pending[d..] == held + rest
    ensures d + |held| <= |pending|
    ensures before + pending[..d] + held == before + pending[..d + |held|]
    ensures pending[d + |held|..] == rest
  {
    assert pending == pending[..d] + (held + rest);
  }

  /** What was taken of all, behind before, has no terminator. */
  ghost predicate LineTaken(before: Text, got: Text, all: Text, taken: Text, rest: Text, terms: set<byte>) {
    && got == before + taken && all == taken + rest
    && FirstLine(all, terms) == taken + FirstLine(rest, terms)
  }

  lemma NothingTaken(before: Text, all: Text, terms: set<byte>)
    ensures LineTaken(before, before, all, [], all, terms)
  {
    hide FirstLine;
    assert before + [] == before && [] + all == all && [] + FirstLine(all, terms) == FirstLine(all, terms);
  }

  lemma ChunkTaken(before: Text, got: Text, all: Text, taken: Text, rest: Text, l: nat, terms: set<byte>)
    requires LineTaken(before, got, all, taken, rest, terms)
    requires l <= |rest| && NextBreak(rest[..l], 0, terms) == l
    ensures LineTaken(before, got + rest[..l], all, taken + rest[..l], rest[l..], terms)
  {
    hide FirstLine, NextBreak;
    assert rest == rest[..l] + rest[l..];
    LineBeyond(rest[..l], rest[l..], terms);
    Longer(before, taken, rest[..l], rest[l..], FirstLine(rest[l..], terms));
  }

  lemma AllTaken(before: Text, got: Text, all: Text, taken: Text, rest: Text, l: nat, terms: set<byte>)
    requires LineTaken(before, got, all, taken, rest, terms) && l <= |rest|
    ensures got == before + taken && all == taken + (rest[..l] + rest[l..])
    ensures FirstLine(all, terms) == taken + FirstLine(rest[..l] + rest[l..], terms)
    ensures rest == [] ==> FirstLine(all, terms) == taken
  {
    hide FirstLine;
    LineOfNone(rest, terms);
    assert rest == rest[..l] + rest[l..];
  }

  lemma Longer(before: Text, taken: Text, chunk: Text, rest: Text, line: Text)
    ensures before + taken + chunk == before + (taken + chunk)
    ensures taken + (chunk + rest) == taken + chunk + rest
    ensures taken + (chunk + line) == taken + chunk + line
  {
  }

  lemma LineOfNone(s: Text, terms: set<byte>)
    ensures FirstLine(s, terms) == [] <==> s == []
  {
  }
}
