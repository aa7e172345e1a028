/** Buffered writing to a core stream. */
module WriteStreams {
  import opened Bytes
  import opened Bstrings

  const BWS_BUFF_SZ := 1024

  /** A core stream to write to, which takes a block or refuses it. */
  class CoreSink {
    const accepts: nat -> bool
    var calls: nat
    var blocks: seq<Text>   // the blocks it has taken

    constructor (accepts: nat -> bool)
      ensures blocks == []
    {
      this.accepts := accepts;
      calls, blocks := 0, [];
    }

    /** Whether it never refuses a block. */
    ghost predicate AcceptsAll() {
      forall call: nat :: accepts(call)
    }

    /** writeFn (block, |block|, 1, parm) */
    method Write(block: Text) returns (n: int)
      modifies this
      ensures n == 0 || n == 1
      ensures AcceptsAll() ==> n == 1
      ensures blocks == if n == 1 then old(blocks) + [block] else old(blocks)
    {
      calls := calls + 1;
      if !accepts(calls) {
        return 0;
      }
      blocks := blocks + [block];
      return 1;
    }
  }

  /** after holds the blocks of before and then only blocks of at least size bytes. */
  ghost predicate OnlyLarge(before: seq<Text>, after: seq<Text>, size: nat) {
    before <= after && forall i :: |before| <= i < |after| ==> |after[i]| >= size
  }

  class BwriteStream {
    var buff: Bstring
    const core: CoreSink
    var isEOF: bool
    var minBuffSz: nat

    ghost predicate Valid()
      reads this, buff
    {
      buff.Valid() && minBuffSz > 0
    }

    /** Everything written so far, as long as the core has refused nothing. */
    ghost function Given(): Text
      requires Valid()
      reads this, buff, buff.data, core
    {
      Concat(core.blocks) + buff.Contents()
    }

    /** bwsOpen */
    constructor (core: CoreSink)
      ensures Valid() && fresh(buff) && fresh(buff.data) && this.core == core && !isEOF
      ensures minBuffSz == BWS_BUFF_SZ && buff.slen == 0
    {
      this.core := core;
      buff := new Bstring([]);
      isEOF := false;
      minBuffSz := BWS_BUFF_SZ;
    }

    /** internal_bwswriteout */
    method WriteOut(block: Text) returns (ret: int)
      modifies core, this`isEOF
      ensures ret == BSTR_OK ==> isEOF == old(isEOF) && Concat(core.blocks) == Concat(old(core.blocks)) + block
      ensures ret == BSTR_OK ==> core.blocks == if block == [] then old(core.blocks) else old(core.blocks) + [block]
      ensures ret != BSTR_OK ==> ret == BSTR_ERR && isEOF && core.blocks == old(core.blocks)
      ensures core.AcceptsAll() ==> ret == BSTR_OK
    {
      if |block| > 0 {
        var n := core.Write(block);
        if n != 1 {
          isEOF := true;
          return BSTR_ERR;
        }
        ConcatLast(old(core.blocks), block);
      }
      return BSTR_OK;
    }

    /** Sends the buffer, as one block, and empties it. */
    method SendBuffer() returns (ret: int)
      requires buff.Valid()
      modifies this`isEOF, buff, core
      ensures buff.Valid() && buff.data == old(buff.data)
      ensures ret == BSTR_OK ==> isEOF == old(isEOF) && buff.slen == 0 && buff.Contents() == []
                                 && Concat(core.blocks) == Concat(old(core.blocks)) + old(buff.Contents())
                                 && OnlyLarge(old(core.blocks), core.blocks, old(buff.slen))
      ensures ret != BSTR_OK ==> ret == BSTR_ERR && isEOF && core.blocks == old(core.blocks)
      ensures core.AcceptsAll() ==> ret == BSTR_OK
    {
      hide Concat;
      ret := WriteOut(buff.data[..buff.slen]);
      if ret >= 0 {
        buff.slen := 0;
      }
    }

    /** bwsWriteFlush */
    method Flush() returns (ret: int)
      requires Valid()
      modifies this`isEOF, buff, core
      ensures Valid() && buff.data == old(buff.data) && (ret == BSTR_OK || ret == BSTR_ERR)
      ensures ret == BSTR_OK ==> !isEOF && buff.slen == 0 && Given() == old(Given())
      ensures ret == BSTR_ERR ==> isEOF && core.blocks == old(core.blocks)
      ensures core.AcceptsAll() && !old(isEOF) ==> ret == BSTR_OK
    {
      if isEOF {
        return BSTR_ERR;
      }
      ret := SendBuffer();
    }

    /** bwsBuffLength: the old size, or BSTR_ERR for a negative one. */
    method BuffLength(sz: int) returns (ret: int)
      requires Valid()
      modifies this`minBuffSz
      ensures Valid() && ret == if sz < 0 then BSTR_ERR else old(minBuffSz)
      ensures minBuffSz == if sz > 0 then sz else old(minBuffSz)
    {
      if sz < 0 {
        return BSTR_ERR;
      }
      ret := minBuffSz;
      if sz > 0 {
        minBuffSz := sz;
      }
    }

    /**
      bwsWriteBstr. If the core refuses a block, what it took before is still the beginning of what was written.
     */
    method WriteBstr(b: Text) returns (ret: int)
      requires Valid()
      modifies this`isEOF, buff, buff.data, core
      ensures Valid() && (buff.data == old(buff.data) || fresh(buff.data))
      ensures OnlyLarge(old(core.blocks), core.blocks, minBuffSz)
      ensures ret == BSTR_OK || ret == BSTR_ERR
      ensures ret == BSTR_OK ==> !isEOF && Given() == old(Given()) + b && buff.slen < minBuffSz
      ensures ret == BSTR_ERR ==> isEOF && Concat(core.blocks) <= old(Given()) + b
      ensures core.AcceptsAll() && !old(isEOF) ==> ret == BSTR_OK
      decreases |b|
    {
      hide Concat, OnlyLarge;
      ghost var sent, pend := Concat(core.blocks), buff.Contents();
      LargeTrans(core.blocks, core.blocks, core.blocks, minBuffSz, minBuffSz);
      Prefixes(sent, pend, b, []);
      if isEOF {
        return BSTR_ERR;
      }
      // Buffer prepacking optimization
      if |b| > 0 && buff.data.Length - buff.slen > |b| {
        buff.CatBlk(b);
        ret := WriteBstr([]);
        return;
      }
      ret := WriteThrough(b);
    }

    /** What is too large for the buffer's block of memory, or nothing, is written. */
    method WriteThrough(b: Text) returns (ret: int)
      requires Valid() && !isEOF
      modifies this`isEOF, buff, buff.data, core
      ensures Valid() && (buff.data == old(buff.data) || fresh(buff.data))
      ensures OnlyLarge(old(core.blocks), core.blocks, minBuffSz)
      ensures ret == BSTR_OK || ret == BSTR_ERR
      ensures ret == BSTR_OK ==> !isEOF && Given() == old(Given()) + b && buff.slen < minBuffSz
      ensures ret == BSTR_ERR ==> isEOF && Concat(core.blocks) <= old(Given()) + b
      ensures core.AcceptsAll() ==> ret == BSTR_OK
    {
      hide Concat, OnlyLarge;
      ghost var sent, pend := Concat(core.blocks), buff.Contents();
      LargeTrans(core.blocks, core.blocks, core.blocks, minBuffSz, minBuffSz);
      Prefixes(sent, pend, b, []);
      ghost var before := core.blocks;
      var l: int := minBuffSz - buff.slen;
      if l < 0 {
        ret := SendBuffer();
        if ret < 0 {
          return;
        }
        LargeTrans(before, before, core.blocks, minBuffSz, |pend|);
        l := minBuffSz;
      }
      if |b| < l {
        buff.CatBlk(b);
        return BSTR_OK;
      }
      ghost var middle := core.blocks;
      ret := WriteLarge(b, l);
      LargeTrans(before, middle, core.blocks, minBuffSz, minBuffSz);
    }

    /** The buffer topped up with l bytes goes out, and so do the others if they are enough for a block. */
    method WriteLarge(b: Text, l: nat) returns (ret: int)
      requires Valid() && !isEOF && l <= |b| && buff.slen + l == minBuffSz
      modifies this`isEOF, buff, buff.data, core
      ensures Valid() && (buff.data == old(buff.data) || fresh(buff.data))
      ensures OnlyLarge(old(core.blocks), core.blocks, minBuffSz)
      ensures ret == BSTR_OK || ret == BSTR_ERR
      ensures ret == BSTR_OK ==> !isEOF && Given() == old(Given()) + b && buff.slen < minBuffSz
      ensures ret == BSTR_ERR ==> isEOF && Concat(core.blocks) <= old(Given()) + b
      ensures core.AcceptsAll() ==> ret == BSTR_OK
    {
      hide Concat, OnlyLarge;
      ghost var sent, pend, before := Concat(core.blocks), buff.Contents(), core.blocks;
      Prefixes(sent, pend, b[..l], b[l..]);
      assert b == b[..l] + b[l..];
      LargeTrans(before, before, before, minBuffSz, minBuffSz);
      buff.CatBlk(b[..l]);
      ret := SendBuffer();
      if ret >= 0 {
        LargeTrans(before, before, core.blocks, minBuffSz, minBuffSz);
        ret := WriteTail(b[l..], before);
      }
    }

    method WriteTail(t: Text, ghost before: seq<Text>) returns (ret: int)
      requires Valid() && !isEOF && buff.slen == 0 && OnlyLarge(before, core.blocks, minBuffSz)
      modifies this`isEOF, buff, buff.data, core
      ensures Valid() && (buff.data == old(buff.data) || fresh(buff.data))
      ensures OnlyLarge(before, core.blocks, minBuffSz)
      ensures ret == BSTR_OK ==> !isEOF && Given() == Concat(old(core.blocks)) + t && buff.slen < minBuffSz
      ensures ret != BSTR_OK ==> ret == BSTR_ERR && isEOF && core.blocks == old(core.blocks)
      ensures core.AcceptsAll() ==> ret == BSTR_OK
    {
      hide Concat;
      if |t| >= minBuffSz {
        ret := WriteOut(t);
        return;
      }
      buff.Assign(t);
      return BSTR_OK;
    }
  }

  /** What a program does with a stream before it closes it. */
  datatype WriteOp = Put(bytes: Text) | FlushNow | Resize(size: int)

  /** The bytes that the operations write, in order. */
  function Written(ops: seq<WriteOp>): Text {
    if ops == [] then [] else (if ops[0].Put? then ops[0].bytes else []) + Written(ops[1..])
  }

  method RunWrite(ws: BwriteStream, op: WriteOp) returns (ret: int)
    requires ws.Valid()
    modifies ws`isEOF, ws`minBuffSz, ws.buff, ws.buff.data, ws.core
    ensures ws.Valid() && (ws.buff.data == old(ws.buff.data) || fresh(ws.buff.data))
    ensures ret == BSTR_OK || ret == BSTR_ERR
    ensures ret == BSTR_OK ==> ws.Given() == old(ws.Given()) + Written([op])
    ensures ret == BSTR_ERR ==> ws.isEOF && Concat(ws.core.blocks) <= old(ws.Given()) + Written([op])
    ensures ws.core.AcceptsAll() && !old(ws.isEOF) ==> ret == BSTR_OK && !ws.isEOF
  {
    hide Concat;
    assert Written([op]) == if op.Put? then op.bytes else [] by {
      assert [op][1..] == [];
    }
    match op
    case Put(bytes) =>
      ret := ws.WriteBstr(bytes);
    case FlushNow =>
      ret := ws.Flush();
    case Resize(size) =>
      var _ := ws.BuffLength(size);
      ret := BSTR_OK;
  }

  /** A whole run, up to the first refusal; without one, blocks taken and bytes pending are all that was written. */
  method RunWrites(ws: BwriteStream, ops: seq<WriteOp>) returns (ret: int)
    requires ws.Valid()
    modifies ws`isEOF, ws`minBuffSz, ws.buff, ws.buff.data, ws.core
    ensures ws.Valid() && (ws.buff.data == old(ws.buff.data) || fresh(ws.buff.data))
    ensures ret == BSTR_OK || ret == BSTR_ERR
    ensures ret == BSTR_OK ==> ws.Given() == old(ws.Given()) + Written(ops)
    ensures ret == BSTR_ERR ==> ws.isEOF && Concat(ws.core.blocks) <= old(ws.Given()) + Written(ops)
    ensures ws.core.AcceptsAll() && !old(ws.isEOF) ==> ret == BSTR_OK && !ws.isEOF
    decreases |ops|
  {
    hide Concat, Written;
    WrittenStep(ops);
    if ops == [] {
      assert ws.Given() + [] == ws.Given();
      return BSTR_OK;
    }
    ghost var given, first, rest := ws.Given(), Written([ops[0]]), Written(ops[1..]);
    assert given + (first + rest) == given + first + rest;
    ret := RunWrite(ws, ops[0]);
    if ret == BSTR_OK {
      ret := RunWrites(ws, ops[1..]);
    }
  }

  lemma WrittenStep(ops: seq<WriteOp>)
    ensures ops == [] ==> Written(ops) == []
    ensures ops != [] ==> Written(ops) == Written([ops[0]]) + Written(ops[1..])
  {
    if ops != [] {
      var one := [ops[0]];
      assert one[1..] == [];
    }
  }

  /** Written in pieces and closed: bwsClose flushes, so the core has all of it unless it refused a block. */
  method WriteAndClose(core: CoreSink, pieces: seq<WriteOp>) returns (ok: bool)
    requires core.blocks == []
    modifies core
    ensures ok ==> Concat(core.blocks) == Written(pieces)
    ensures Concat(core.blocks) <= Written(pieces)
    ensures core.AcceptsAll() ==> ok
  {
    hide Written;
    var ws := new BwriteStream(core);
    assert [] + Written(pieces) == Written(pieces);
    var ret := RunWrites(ws, pieces);
    if ret == BSTR_OK {
      assert Concat(core.blocks) <= ws.Given();
      ret := ws.Flush();
      assert ret == BSTR_OK ==> Concat(core.blocks) + [] == Concat(core.blocks);
    }
    ok := ret == BSTR_OK;
  }

  lemma LargeTrans(a: seq<Text>, b: seq<Text>, c: seq<Text>, size: nat, more: nat)
    requires a == b || OnlyLarge(a, b, size)
    requires b == c || (OnlyLarge(b, c, more) && more >= size)
    ensures OnlyLarge(a, c, size)
  {
  }

  lemma Prefixes(sent: Text, pend: Text, b: Text, c: Text)
    ensures sent <= sent + pend + (b + c)
    ensures sent + (pend + b) <= sent + pend + (b + c)
    ensures sent + pend + b + c == sent + pend + (b + c)
    ensures sent + (pend + b) == sent + pend + b
    ensures sent + (pend + b) + c == sent + pend + (b + c)
    ensures sent + [] == sent
    ensures b + [] == b
  {
  }
}
