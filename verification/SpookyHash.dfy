/** The streaming hash: a buffered state machine that computes the hash of the bytes it was given. */
module SpookyHash {
  import opened Blocks
  import opened Bytes
  import opened Words
  import opened SpookyMix
  import opened SpookyShort

  const SC_BLOCKSIZE := 8 * NUM_VARS
  const SC_BUFSIZE := 2 * SC_BLOCKSIZE

  /** Ninety-six bytes, read as twelve words. */
  function BlockOf(s: Text): Block
    requires |s| == SC_BLOCKSIZE
  {
    seq(NUM_VARS, i requires 0 <= i < NUM_VARS => WordAt(s, 8 * i))
  }

  /** The words of a block hold its bytes in order. */
  lemma BlockByBit(s: Text, i: nat, n: nat)
    requires |s| == SC_BLOCKSIZE && i < NUM_VARS && n < 64
    ensures BitAt(BlockOf(s)[i], n) == BitAt(s[8 * i + n / 8], n % 8)
  {
    hide BitAt, WordAt;
    WordByBit(s, 8 * i, n);
  }

  /** All the blocks of s mixed in, the last one last. */
  function MixedAll(h: State, s: Text): State
    requires Whole(|s|, SC_BLOCKSIZE)
  {
    if s == [] then h else
    WholeNext(0, |s|, SC_BLOCKSIZE);
    Mixed(MixedAll(h, s[..|s| - SC_BLOCKSIZE]), BlockOf(s[|s| - SC_BLOCKSIZE..]))
  }

  /** The variables before the first block. */
  function Seeded(seed1: Word, seed2: Word): State {
    State(seed1, seed2, SC_CONST, seed1, seed2, SC_CONST, seed1, seed2, SC_CONST, seed1, seed2, SC_CONST)
  }

  /** The bytes after the last whole block, padded with zeros, their number in the last byte. */
  function LastBlock(rest: Text): (b: Text)
    requires |rest| < SC_BLOCKSIZE
    ensures |b| == SC_BLOCKSIZE && rest <= b && b[SC_BLOCKSIZE - 1] == |rest|
    ensures forall k :: |rest| <= k < SC_BLOCKSIZE - 1 ==> b[k] == 0
  {
    ZeroPadded(rest, SC_BLOCKSIZE - 1) + [|rest|]
  }

  /** The four words that one call would compute for the whole message. */
  function HashOf(message: Text, seed1: Word, seed2: Word, hash1: Word, hash2: Word): Short
    requires |message| < WORD_LIMIT
  {
    if |message| < SC_BUFSIZE then ShortHashOf(message, hash1, hash2) else
    var whole := WholePart(|message|, SC_BLOCKSIZE);
    var h := Ended(MixedAll(Seeded(seed1, seed2), message[..whole]), BlockOf(LastBlock(message[whole..])));
    Short(h.h0, h.h1, h.h2, h.h3)
  }

  lemma MixedNext(h: State, s: Text, p: nat)
    requires Whole(p, SC_BLOCKSIZE) && p + SC_BLOCKSIZE <= |s|
    ensures Whole(p + SC_BLOCKSIZE, SC_BLOCKSIZE)
    ensures MixedAll(h, s[..p + SC_BLOCKSIZE]) == Mixed(MixedAll(h, s[..p]), BlockOf(s[p..p + SC_BLOCKSIZE]))
  {
    hide Mixed, BlockOf, Whole;
    OneIsWhole(SC_BLOCKSIZE);
    WholeSum(p, SC_BLOCKSIZE, SC_BLOCKSIZE);
    var t := s[..p + SC_BLOCKSIZE];
    assert t[..p] == s[..p] && t[p..] == s[p..p + SC_BLOCKSIZE];
  }

  lemma {:induction false} MixedAllAppend(h: State, s: Text, t: Text)
    requires Whole(|s|, SC_BLOCKSIZE) && Whole(|t|, SC_BLOCKSIZE)
    ensures Whole(|s + t|, SC_BLOCKSIZE)
    ensures MixedAll(h, s + t) == MixedAll(MixedAll(h, s), t)
    decreases |t|
  {
    hide Mixed, BlockOf, Whole;
    WholeSum(|s|, |t|, SC_BLOCKSIZE);
    if t == [] {
      assert s + t == s;
    } else {
      NoneIsWhole(SC_BLOCKSIZE);
      WholeNext(0, |t|, SC_BLOCKSIZE);
      var k := |t| - SC_BLOCKSIZE;
      MixedAllAppend(h, s, t[..k]);
      assert (s + t)[..|s| + k] == s + t[..k] && (s + t)[|s| + k..] == t[k..];
    }
  }

  /**
    Two different states never become equal under a common sequence of whole blocks: no block loses anything
    that the state still knows about the blocks before it.
   */
  lemma {:induction false} MixedAllIsInjective(h1: State, h2: State, s: Text)
    requires Whole(|s|, SC_BLOCKSIZE)
    ensures MixedAll(h1, s) == MixedAll(h2, s) ==> h1 == h2
    decreases |s|
  {
    hide Mixed, Unmixed, BlockOf, Whole;
    if s != [] {
      NoneIsWhole(SC_BLOCKSIZE);
      WholeNext(0, |s|, SC_BLOCKSIZE);
      var front, block := s[..|s| - SC_BLOCKSIZE], BlockOf(s[|s| - SC_BLOCKSIZE..]);
      MixIsBijective(MixedAll(h1, front), block);
      MixIsBijective(MixedAll(h2, front), block);
      MixedAllIsInjective(h1, h2, front);
    }
  }

  /** The loop over all whole blocks of s, from p to endp. */
  method MixBlocks(h: State, s: Text, start: nat, endp: nat) returns (t: State)
    requires start <= endp <= |s| && Whole(endp - start, SC_BLOCKSIZE)
    ensures t == MixedAll(h, s[start..endp])
  {
    hide Mixed, MixedAll, BlockOf, Whole;
    t := h;
    MixedNone(h);
    assert s[start..start] == [];
    var p := start;
    while p < endp
      invariant start <= p <= endp && Whole(p - start, SC_BLOCKSIZE)
      invariant t == MixedAll(h, s[start..p])
    {
      WholeNext(p - start, endp - start, SC_BLOCKSIZE);
      MixedOn(h, s, start, p);
      t := Mix(BlockOf(s[p..p + SC_BLOCKSIZE]), t);
      p := p + SC_BLOCKSIZE;
    }
  }

  lemma MixedOn(h: State, s: Text, start: nat, p: nat)
    requires start <= p && p + SC_BLOCKSIZE <= |s| && Whole(p - start, SC_BLOCKSIZE)
    ensures Whole(p + SC_BLOCKSIZE - start, SC_BLOCKSIZE)
    ensures MixedAll(h, s[start..p + SC_BLOCKSIZE])
         == Mixed(MixedAll(h, s[start..p]), BlockOf(s[p..p + SC_BLOCKSIZE]))
  {
    hide Mixed, MixedAll, BlockOf, Whole;
    var t, k := s[start..|s|], p - start;
    SliceOfSlice(s, start, |s|, 0, k);
    SliceOfSlice(s, start, |s|, 0, k + SC_BLOCKSIZE);
    SliceOfSlice(s, start, |s|, k, k + SC_BLOCKSIZE);
    assert t[..k] == t[0..k] && t[..k + SC_BLOCKSIZE] == t[0..k + SC_BLOCKSIZE];
    MixedNext(h, t, k);
  }

  class SpookyState {
    var data: array<byte>       // m_data, as bytes
    var state: State            // m_state
    var length: Word            // m_length
    var remainder: byte         // m_remainder

    ghost var message: Text     // everything given to Update so far
    ghost const seed1: Word
    ghost const seed2: Word

    ghost predicate Valid()
      reads this, data
    {
      && data.Length == SC_BUFSIZE
      && |message| == length
      && remainder < SC_BUFSIZE
      && remainder <= length
      && data[..remainder] == message[length - remainder..]
      && (length < SC_BUFSIZE ==> remainder == length && state.h0 == seed1 && state.h1 == seed2)
      && (length >= SC_BUFSIZE ==>
            && Whole(length - remainder, SC_BLOCKSIZE)
            && state == MixedAll(Seeded(seed1, seed2), message[..length - remainder]))
    }

    constructor (seed1: Word, seed2: Word)
      ensures Valid() && fresh(data)
      ensures message == [] && this.seed1 == seed1 && this.seed2 == seed2
    {
      data := new byte[SC_BUFSIZE](_ => 0);
      state := State(seed1, seed2, 0, 0, 0, 0, 0, 0, 0, 0, 0, 0);
      length := 0;
      remainder := 0;
      message := [];
      this.seed1 := seed1;
      this.seed2 := seed2;
    }

    /** memcpy of a fragment into the buffer, from offset at on. */
    method Stuff(at: nat, fragment: Text)
      requires data.Length == SC_BUFSIZE && at + |fragment| <= SC_BUFSIZE
      modifies data
      ensures data[..at + |fragment|] == old(data[..at]) + fragment
    {
      forall i | 0 <= i < |fragment| {
        data[at + i] := fragment[i];
      }
    }

    /** Adds a message fragment to the state. */
    method Update(fragment: Text)
      requires Valid()
      requires |message| + |fragment| < WORD_LIMIT
      modifies this, data
      ensures Valid() && data == old(data)
      ensures message == old(message) + fragment
    {
      hide Mixed, MixedAll, BlockOf, Seeded, Whole, WholePart;
      if |fragment| + remainder < SC_BUFSIZE {
        StuffAway(fragment);
      } else {
        var h, p := TakeBuffer(fragment);
        TakeBlocks(fragment, h, p);
      }
    }

    /** A fragment that still fits into the buffer. */
    method StuffAway(fragment: Text)
      requires Valid()
      requires |fragment| + remainder < SC_BUFSIZE && |message| + |fragment| < WORD_LIMIT
      modifies this, data
      ensures Valid() && data == old(data)
      ensures message == old(message) + fragment
    {
      hide Mixed, MixedAll, BlockOf, Seeded, Whole, WholePart;
      ghost var before, whole := message, length - remainder;
      Stuff(remainder, fragment);
      length := |fragment| + length;
      remainder := |fragment| + remainder;
      message := message + fragment;
      assert message[whole..] == before[whole..] + fragment;
      assert message[..whole] == before[..whole];
    }

    /** The variables with whatever was stuffed away, topped up to two blocks, mixed in; p bytes are used up. */
    method TakeBuffer(fragment: Text) returns (h: State, p: nat)
      requires Valid()
      requires |fragment| + remainder >= SC_BUFSIZE
      modifies data
      ensures p <= |fragment| && Whole(length + p, SC_BLOCKSIZE)
      ensures h == MixedAll(Seeded(seed1, seed2), message + fragment[..p])
    {
      hide Mixed, MixedAll, BlockOf, Whole, WholePart;
      ghost var whole := message[..length - remainder];
      h := state;
      if length < SC_BUFSIZE {
        h := State(state.h0, state.h1, SC_CONST, state.h0, state.h1, SC_CONST,
                   state.h0, state.h1, SC_CONST, state.h0, state.h1, SC_CONST);
        MixedNone(h);
      }
      assert h == MixedAll(Seeded(seed1, seed2), whole);
      p := 0;
      if remainder != 0 {
        p := SC_BUFSIZE - remainder;
        Stuff(remainder, fragment[..p]);
        MixedTwo(h, data[..]);
        MixedAllAppend(Seeded(seed1, seed2), whole, data[..]);
        assert whole + data[..] == message + fragment[..p];
        h := Mix(BlockOf(data[..SC_BLOCKSIZE]), h);
        h := Mix(BlockOf(data[SC_BLOCKSIZE..]), h);
      } else {
        assert whole == message + fragment[..p];
      }
    }

    /** The whole blocks of the fragment from p on; the last few bytes are stuffed away. */
    method TakeBlocks(fragment: Text, h: State, p: nat)
      requires data.Length == SC_BUFSIZE
      requires |message| == length && |fragment| + length < WORD_LIMIT
      requires p <= |fragment| && Whole(length + p, SC_BLOCKSIZE) && length + |fragment| >= SC_BUFSIZE
      requires h == MixedAll(Seeded(seed1, seed2), message + fragment[..p])
      modifies this, data
      ensures Valid() && data == old(data)
      ensures message == old(message) + fragment
    {
      hide Mixed, MixedAll, BlockOf, Seeded, Whole, WholePart;
      ghost var all := message + fragment;
      var endp := p + WholePart(|fragment| - p, SC_BLOCKSIZE);
      state := MixBlocks(h, fragment, p, endp);
      MixedThrough(Seeded(seed1, seed2), message, fragment, p, endp);
      length := |fragment| + length;
      message := all;
      remainder := |fragment| - endp;
      Stuff(0, fragment[endp..]);
    }

    /** The variables with a whole block that may be left in the buffer; the last bytes begin at at. */
    method TakePending() returns (h: State, at: nat)
      requires Valid() && length >= SC_BUFSIZE
      ensures at <= remainder < at + SC_BLOCKSIZE && at + SC_BLOCKSIZE <= SC_BUFSIZE
      ensures h == MixedAll(Seeded(seed1, seed2), message[..WholePart(length, SC_BLOCKSIZE)])
      ensures data[at..remainder] == message[WholePart(length, SC_BLOCKSIZE)..]
    {
      hide Mixed, MixedAll, BlockOf, Seeded, Whole, WholePart;
      ghost var done := length - remainder;
      LastWholeBlock(length, remainder);
      h, at := state, 0;
      if remainder >= SC_BLOCKSIZE {
        MixedNext(Seeded(seed1, seed2), message, done);
        assert data[..SC_BLOCKSIZE] == data[..remainder][..SC_BLOCKSIZE];
        assert message[done..][..SC_BLOCKSIZE] == message[done..done + SC_BLOCKSIZE];
        h := Mix(BlockOf(data[..SC_BLOCKSIZE]), h);
        at := SC_BLOCKSIZE;
      }
      assert data[at..remainder] == data[..remainder][at..];
    }

    /** Clears the last block behind its rem bytes and puts their number in its last byte. */
    method PadLast(at: nat, rem: nat)
      requires rem < SC_BLOCKSIZE && at + SC_BLOCKSIZE <= data.Length
      modifies data
      ensures data[..at + rem] == old(data[..at + rem])
      ensures data[at..at + SC_BLOCKSIZE] == LastBlock(old(data[at..at + rem]))
    {
      forall i | at + rem <= i < at + SC_BLOCKSIZE {
        data[i] := 0;
      }
      data[at + SC_BLOCKSIZE - 1] := rem;
    }

    /** Reports the hash for the concatenation of all message fragments so far, which may still be added to. */
    method Final(hash1: Word, hash2: Word) returns (out1: Word, out2: Word, out3: Word, out4: Word)
      requires Valid()
      modifies data
      ensures Valid()
      ensures Short(out1, out2, out3, out4) == HashOf(message, seed1, seed2, hash1, hash2)
    {
      hide Mixed, MixedAll, BlockOf, Seeded, Ended, ShortHashOf, Whole, WholePart;
      if length < SC_BUFSIZE {
        assert data[..length] == message;
        out1, out2, out3, out4 := ShortHash(data[..length], hash1, hash2);
        return;
      }
      var h, at := TakePending();
      PadLast(at, remainder - at);
      h := End(BlockOf(data[at..at + SC_BLOCKSIZE]), h);
      out1, out2, out3, out4 := h.h0, h.h1, h.h2, h.h3;
    }

    /** One fragment, and if peek is set, the hash so far. */
    method AddAndPeek(fragment: Text, peek: bool, hash1: Word, hash2: Word)
      requires Valid()
      requires |message| + |fragment| < WORD_LIMIT
      modifies this, data
      ensures Valid() && data == old(data)
      ensures message == old(message) + fragment
    {
      hide *;
      Update(fragment);
      if peek {
        var _, _, _, _ := Final(hash1, hash2);
      }
    }

    /** All the fragments, one after the other. */
    method AddAll(fragments: seq<Text>, peek: nat -> bool, hash1: Word, hash2: Word)
      requires Valid() && message == []
      requires |Concat(fragments)| < WORD_LIMIT
      modifies this, data
      ensures Valid() && data == old(data)
      ensures message == Concat(fragments)
    {
      hide *;
      ConcatNone(fragments);
      for i := 0 to |fragments|
        invariant Valid() && data == old(data)
        invariant message == Concat(fragments[..i])
      {
        ConcatNext(fragments, i);
        AddAndPeek(fragments[i], peek(i), hash1, hash2);
      }
      assert fragments[..|fragments|] == fragments;
    }
  }

  /**
    A whole run: the message arrives in fragments of any sizes, and the hash so far is asked for after those
    fragments that peek names. The result depends on neither.
   */
  method HashInFragments(fragments: seq<Text>, peek: nat -> bool, seed1: Word, seed2: Word, hash1: Word, hash2: Word)
    returns (out1: Word, out2: Word, out3: Word, out4: Word)
    requires |Concat(fragments)| < WORD_LIMIT
    ensures Short(out1, out2, out3, out4) == HashOf(Concat(fragments), seed1, seed2, hash1, hash2)
  {
    hide *;
    var spooky := new SpookyState(seed1, seed2);
    spooky.AddAll(fragments, peek, hash1, hash2);
    out1, out2, out3, out4 := spooky.Final(hash1, hash2);
  }

  lemma MixedThrough(h: State, s: Text, t: Text, p: nat, endp: nat)
    requires p <= endp <= |t| && Whole(|s| + p, SC_BLOCKSIZE) && Whole(endp - p, SC_BLOCKSIZE)
    ensures Whole(|s| + endp, SC_BLOCKSIZE)
    ensures MixedAll(MixedAll(h, s + t[..p]), t[p..endp]) == MixedAll(h, (s + t)[..|s| + endp])
    ensures (s + t)[|s| + endp..] == t[endp..]
  {
    hide Mixed, MixedAll, BlockOf, Whole;
    WholeSum(|s| + p, endp - p, SC_BLOCKSIZE);
    MixedAllAppend(h, s + t[..p], t[p..endp]);
    assert s + t[..p] + t[p..endp] == (s + t)[..|s| + endp];
  }

  lemma LastWholeBlock(n: nat, pending: nat)
    requires pending <= n && pending < SC_BUFSIZE && Whole(n - pending, SC_BLOCKSIZE)
    ensures WholePart(n, SC_BLOCKSIZE)
         == n - pending + if pending >= SC_BLOCKSIZE then SC_BLOCKSIZE else 0
  {
    OneIsWhole(SC_BLOCKSIZE);
    WholeSum(n - pending, SC_BLOCKSIZE, SC_BLOCKSIZE);
    WholePartIs(n, n - pending + if pending >= SC_BLOCKSIZE then SC_BLOCKSIZE else 0, SC_BLOCKSIZE);
  }

  lemma MixedNone(h: State)
    ensures Whole(0, SC_BLOCKSIZE) && MixedAll(h, []) == h
  {
    NoneIsWhole(SC_BLOCKSIZE);
  }

  lemma MixedTwo(h: State, s: Text)
    requires |s| == SC_BUFSIZE
    ensures Whole(|s|, SC_BLOCKSIZE)
    ensures MixedAll(h, s) == Mixed(Mixed(h, BlockOf(s[..SC_BLOCKSIZE])), BlockOf(s[SC_BLOCKSIZE..]))
  {
    hide Mixed, MixedAll, BlockOf, Whole;
    MixedNone(h);
    MixedNext(h, s, 0);
    MixedNext(h, s, SC_BLOCKSIZE);
    assert s[..0] == [] && s[..SC_BUFSIZE] == s;
  }
}
