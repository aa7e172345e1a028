/** The hash of short messages. */
module SpookyShort {
  import opened Blocks
  import opened Bytes
  import opened Words
  import opened SpookyMix

  const SC_CONST: Word := 0xdeadbeefdeadbeef

  /** The number that the bytes of s spell on a little-endian machine. */
  function LittleEndian(s: Text): (n: nat)
    ensures n < Pow2(8 * |s|)
  {
    if s == [] then 0 else
    Pow2Sum(8, 8 * |s| - 8);
    assert Pow2(8) == 256;
    s[0] + 256 * LittleEndian(s[1..])
  }

  /** The eight bytes of s at offset i, read as a uint64_t. */
  function WordAt(s: Text, i: nat): Word
    requires i + 8 <= |s|
  {
    Pow2Word();
    LittleEndian(s[i..i + 8])
  }

  /** s followed by zeros, n bytes in all. */
  function ZeroPadded(s: Text, n: nat): (p: Text)
    requires |s| <= n
    ensures |p| == n && s <= p && forall k :: |s| <= k < n ==> p[k] == 0
  {
    s + seq(n - |s|, _ => 0)
  }

  /** Adds the sixteen bytes of block to the last two variables, as two words. */
  function AddPair(h: Short, block: Text): Short
    requires |block| == 16
  {
    h.(h2 := Plus(h.h2, WordAt(block, 0)), h3 := Plus(h.h3, WordAt(block, 8)))
  }

  /** One group of thirty-two bytes. */
  function Absorbed(h: Short, group: Text): Short
    requires |group| == 32
  {
    var m := ShortMixed(AddPair(h, group[..16]));
    m.(h0 := Plus(m.h0, WordAt(group, 16)), h1 := Plus(m.h1, WordAt(group, 24)))
  }

  /** All the groups of s, the last one last. */
  function AllAbsorbed(h: Short, s: Text): Short
    requires Whole(|s|, 32)
  {
    if s == [] then h else
    WholeNext(0, |s|, 32);
    Absorbed(AllAbsorbed(h, s[..|s| - 32]), s[|s| - 32..])
  }

  /** The sixteen bytes that may come between the groups and the last bytes. */
  function HalfAbsorbed(h: Short, s: Text): Short
    requires |s| < 32
  {
    if |s| >= 16 then ShortMixed(AddPair(h, s[..16])) else h
  }

  /** The last bytes of a message of the given length, read as a zero-padded block of sixteen bytes. */
  function TailAdded(h: Short, tail: Text, length: Word): Short
    requires |tail| < 16
  {
    var counted := h.(h3 := Plus(h.h3, ShiftLeft(length, 56)));
    if tail == [] then counted.(h2 := Plus(counted.h2, SC_CONST), h3 := Plus(counted.h3, SC_CONST))
    else AddPair(counted, ZeroPadded(tail, 16))
  }

  /** The four words of the short hash, from its two seeds. */
  function ShortHashOf(message: Text, seed1: Word, seed2: Word): Short
    requires |message| < WORD_LIMIT
  {
    var whole := WholePart(|message|, 32);
    var rest := message[whole..];
    var h := HalfAbsorbed(AllAbsorbed(Short(seed1, seed2, SC_CONST, SC_CONST), message[..whole]), rest);
    ShortEnded(TailAdded(h, if |rest| >= 16 then rest[16..] else rest, |message|))
  }

  lemma WordInSlice(s: Text, lo: nat, hi: nat, i: nat)
    requires lo + i + 8 <= hi <= |s|
    ensures WordAt(s[lo..hi], i) == WordAt(s, lo + i)
  {
    SliceOfSlice(s, lo, hi, i, i + 8);
  }

  lemma LittleEndianFrom(s: Text, i: nat)
    requires i < |s|
    ensures LittleEndian(s[i..]) == s[i] + 256 * LittleEndian(s[i + 1..])
  {
    assert s[i..][1..] == s[i + 1..];
  }

  /** The bits of the first byte are the lowest ones. */
  lemma {:induction false} LittleEndianByBit(s: Text, n: nat)
    requires n < 8 * |s|
    ensures BitAt(LittleEndian(s), n) == BitAt(s[n / 8], n % 8)
  {
    hide BitAt;
    Pow2Byte();
    BitsOfSplit(LittleEndian(s[1..]), s[0], 8, n);
    if n >= 8 {
      LittleEndianByBit(s[1..], n - 8);
      assert (n - 8) / 8 == n / 8 - 1 && (n - 8) % 8 == n % 8;
    }
  }

  /** A word holds its eight bytes in order, the lowest bits first. */
  lemma WordByBit(s: Text, i: nat, n: nat)
    requires i + 8 <= |s| && n < 64
    ensures BitAt(WordAt(s, i), n) == BitAt(s[i + n / 8], n % 8)
  {
    hide BitAt;
    LittleEndianByBit(s[i..i + 8], n);
  }

  // The eight shifts that C writes out.
  lemma EightBytes(s: Text)
    requires |s| == 8
    ensures LittleEndian(s) == (s[0] as int) + 0x100 * (s[1] as int) + 0x1_0000 * (s[2] as int)
            + 0x100_0000 * (s[3] as int)
            + 0x1_0000_0000 * (s[4] as int) + 0x100_0000_0000 * (s[5] as int)
            + 0x1_0000_0000_0000 * (s[6] as int) + 0x100_0000_0000_0000 * (s[7] as int)
  {
    assert s[0..] == s && s[8..] == [];
    LittleEndianFrom(s, 0); LittleEndianFrom(s, 1); LittleEndianFrom(s, 2); LittleEndianFrom(s, 3);
    LittleEndianFrom(s, 4); LittleEndianFrom(s, 5); LittleEndianFrom(s, 6); LittleEndianFrom(s, 7);
  }

  lemma FourBytes(s: Text)
    requires |s| == 4
    ensures LittleEndian(s) == (s[0] as int) + 0x100 * (s[1] as int) + 0x1_0000 * (s[2] as int)
            + 0x100_0000 * (s[3] as int)
  {
    assert s[0..] == s && s[4..] == [];
    LittleEndianFrom(s, 0); LittleEndianFrom(s, 1); LittleEndianFrom(s, 2); LittleEndianFrom(s, 3);
  }

  /**
    The last bytes of an incomplete word, each shifted into place: the cases 7..1 of the switch on the first
    word, and 15..9 on the second.
   */
  method AddLastBytes(u8: Text, w: Word) returns (w': Word)
    requires 0 < |u8| < 8
    ensures w' == Plus(w, WordAt(ZeroPadded(u8, 8), 0))
  {
    hide LittleEndian, Pow2, Plus;
    EightBytes(ZeroPadded(u8, 8));
    assert ZeroPadded(u8, 8)[0..8] == ZeroPadded(u8, 8);
    ghost var sum := 0;           // what was added so far
    PlusSum(w, 0, 0);
    w' := w;
    if |u8| >= 4 {
      FourBytes(u8[0..4]);
      if |u8| >= 7 {
        w' := Plus(w', 0x1_0000_0000_0000 * (u8[6] as int));
        sum := 0x1_0000_0000_0000 * (u8[6] as int);
      }
      if |u8| >= 6 {
        PlusSum(w, sum, 0x100_0000_0000 * (u8[5] as int));
        w' := Plus(w', 0x100_0000_0000 * (u8[5] as int));
        sum := sum + 0x100_0000_0000 * (u8[5] as int);
      }
      if |u8| >= 5 {
        PlusSum(w, sum, 0x1_0000_0000 * (u8[4] as int));
        w' := Plus(w', 0x1_0000_0000 * (u8[4] as int));
        sum := sum + 0x1_0000_0000 * (u8[4] as int);
      }
      PlusSum(w, sum, LittleEndian(u8[0..4]));
      w' := Plus(w', LittleEndian(u8[0..4]));
    } else {
      if |u8| >= 3 {
        w' := Plus(w', 0x1_0000 * (u8[2] as int));
        sum := 0x1_0000 * (u8[2] as int);
      }
      if |u8| >= 2 {
        PlusSum(w, sum, 0x100 * (u8[1] as int));
        w' := Plus(w', 0x100 * (u8[1] as int));
        sum := sum + 0x100 * (u8[1] as int);
      }
      PlusSum(w, sum, u8[0]);
      w' := Plus(w', u8[0]);
    }
  }

  /** The switch over the last 0..15 bytes. */
  method AddTail(u8: Text, length: Word, c: Word, d: Word) returns (c': Word, d': Word)
    requires |u8| < 16
    ensures forall a: Word, b: Word :: Short(a, b, c', d') == TailAdded(Short(a, b, c, d), u8, length)
  {
    ghost var padded := ZeroPadded(u8, 16);
    c', d' := c, Plus(d, ShiftLeft(length, 56));
    if |u8| >= 8 {
      assert padded[0..8] == u8[0..8];
      assert padded[8..16] == ZeroPadded(u8[8..], 8)[0..8];
      if |u8| > 8 {
        d' := AddLastBytes(u8[8..], d');
      } else {
        EightBytes(padded[8..16]);
      }
      c' := Plus(c', WordAt(u8, 0));
    } else if |u8| > 0 {
      assert padded[0..8] == ZeroPadded(u8, 8)[0..8];
      EightBytes(padded[8..16]);
      c' := AddLastBytes(u8, c');
    } else {
      c' := Plus(c', SC_CONST);
      d' := Plus(d', SC_CONST);
    }
  }

  /** The loop over all complete sets of 32 bytes. */
  method AbsorbGroups(message: Text, hash1: Word, hash2: Word) returns (a: Word, b: Word, c: Word, d: Word)
    ensures Short(a, b, c, d)
         == AllAbsorbed(Short(hash1, hash2, SC_CONST, SC_CONST), message[..WholePart(|message|, 32)])
  {
    hide ShortMixed, AllAbsorbed, Plus, WordAt, Whole, WholePart;
    AbsorbedNone(Short(hash1, hash2, SC_CONST, SC_CONST));
    assert message[..0] == [];
    a, b, c, d := hash1, hash2, SC_CONST, SC_CONST;
    var p := 0;
    var endp := WholePart(|message|, 32);
    while p < endp
      invariant p <= endp && Whole(p, 32)
      invariant Short(a, b, c, d) == AllAbsorbed(Short(hash1, hash2, SC_CONST, SC_CONST), message[..p])
    {
      WholeNext(p, endp, 32);
      AbsorbedNext(Short(hash1, hash2, SC_CONST, SC_CONST), message, p);
      c := Plus(c, WordAt(message, p));
      d := Plus(d, WordAt(message, p + 8));
      a, b, c, d := ShortMix(a, b, c, d);
      a := Plus(a, WordAt(message, p + 16));
      b := Plus(b, WordAt(message, p + 24));
      p := p + 32;
    }
  }

  method ShortHash(message: Text, hash1: Word, hash2: Word)
    returns (out1: Word, out2: Word, out3: Word, out4: Word)
    requires |message| < WORD_LIMIT
    ensures Short(out1, out2, out3, out4) == ShortHashOf(message, hash1, hash2)
  {
    hide ShortMixed, ShortEnded, Plus, WordAt, TailAdded;
    var length := |message|;
    var p := WholePart(length, 32);
    ghost var rest := message[p..];
    var a, b, c, d := hash1, hash2, SC_CONST, SC_CONST;
    if length > 15 {
      a, b, c, d := AbsorbGroups(message, hash1, hash2);
      if length % 32 >= 16 {
        PairAt(Short(a, b, c, d), message, p);
        assert rest[..16] == message[p..p + 16];
        c := Plus(c, WordAt(message, p));
        d := Plus(d, WordAt(message, p + 8));
        a, b, c, d := ShortMix(a, b, c, d);
        p := p + 16;
        assert rest[16..] == message[p..];
      }
    }
    c, d := AddTail(message[p..], length, c, d);
    out1, out2, out3, out4 := ShortEnd(a, b, c, d);
  }

  lemma PairAt(h: Short, s: Text, p: nat)
    requires p + 16 <= |s|
    ensures AddPair(h, s[p..p + 16]) == h.(h2 := Plus(h.h2, WordAt(s, p)), h3 := Plus(h.h3, WordAt(s, p + 8)))
  {
    WordInSlice(s, p, p + 16, 0);
    WordInSlice(s, p, p + 16, 8);
  }

  lemma AbsorbedAt(h: Short, s: Text, p: nat)
    requires p + 32 <= |s|
    ensures var m := ShortMixed(h.(h2 := Plus(h.h2, WordAt(s, p)), h3 := Plus(h.h3, WordAt(s, p + 8))));
            Absorbed(h, s[p..p + 32])
            == m.(h0 := Plus(m.h0, WordAt(s, p + 16)), h1 := Plus(m.h1, WordAt(s, p + 24)))
  {
    PairAt(h, s, p);
    assert s[p..p + 32][..16] == s[p..p + 16];
    WordInSlice(s, p, p + 32, 16);
    WordInSlice(s, p, p + 32, 24);
  }

  lemma AbsorbedNone(start: Short)
    ensures Whole(0, 32) && AllAbsorbed(start, []) == start
  {
  }

  lemma AbsorbedNext(start: Short, s: Text, p: nat)
    requires Whole(p, 32) && Whole(p + 32, 32) && p + 32 <= |s|
    ensures var h := AllAbsorbed(start, s[..p]);
            var m := ShortMixed(h.(h2 := Plus(h.h2, WordAt(s, p)), h3 := Plus(h.h3, WordAt(s, p + 8))));
            AllAbsorbed(start, s[..p + 32])
            == m.(h0 := Plus(m.h0, WordAt(s, p + 16)), h1 := Plus(m.h1, WordAt(s, p + 24)))
  {
    hide ShortMixed, Plus, WordAt, Whole;
    assert s[..p + 32][..p] == s[..p] && s[..p + 32][p..] == s[p..p + 32];
    AbsorbedAt(AllAbsorbed(start, s[..p]), s, p);
  }
}
