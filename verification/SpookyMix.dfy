/**
  The four mixing programs of the hash, on 64-bit words.

  Each program is one step repeated, with the variables renamed by one place after every line. The step is
  written once, on a view of the state that starts at the variable the line starts with; `next` views are one
  place further on. A step is undone by running its assignments backwards, so every program is a bijection.
 */
module SpookyMix {
  import opened Words

  const NUM_VARS := 12

  /** The twelve variables of the hash. */
  datatype State = State(
    h0: Word, h1: Word, h2: Word, h3: Word, h4: Word, h5: Word,
    h6: Word, h7: Word, h8: Word, h9: Word, h10: Word, h11: Word)

  /** The four variables of the short hash. */
  datatype Short = Short(h0: Word, h1: Word, h2: Word, h3: Word)

  /** Twelve words of a message. */
  type Block = s: seq<Word> | |s| == NUM_VARS witness seq(NUM_VARS, _ => 0)

  // ----- mix

  function MixRotation(i: nat): (k: nat)
    requires i < 12
    ensures k <= 64
  {
    match i
    case 0 => 11
    case 1 => 32
    case 2 => 43
    case 3 => 31
    case 4 => 17
    case 5 => 28
    case 6 => 39
    case 7 => 57
    case 8 => 55
    case 9 => 54
    case 10 => 22
    case _ => 46
  }

  function MixStep(s: State, x: Word, k: nat): (next: State)
    requires k <= 64
  {
    var s0 := Plus(s.h0, x);
    var s11 := Xor(s.h11, s0);
    State(s.h1, Xor(s.h2, s.h10), s.h3, s.h4, s.h5, s.h6, s.h7, s.h8, s.h9, s.h10, Plus(s11, s.h1), Rot(s0, k))
  }

  function MixUnstep(next: State, x: Word, k: nat): (s: State)
    requires k <= 64
  {
    var s11 := Minus(next.h10, next.h0);
    var s0 := Rot(next.h11, 64 - k);
    State(Minus(s0, x), next.h0, Xor(next.h1, next.h9), next.h2, next.h3, next.h4, next.h5, next.h6,
          next.h7, next.h8, next.h9, Xor(s11, s0))
  }

  lemma MixStepUndone(s: State, x: Word, k: nat)
    requires k <= 64
    ensures MixUnstep(MixStep(s, x, k), x, k) == s
  {
    var s0 := Plus(s.h0, x);
    UndoPlus(s.h0, x);
    UndoXor(s.h2, s.h10);
    UndoXor(s.h11, s0);
    UndoRot(s0, k);
    UndoPlus(Xor(s.h11, s0), s.h1);
  }

  lemma MixStepReached(next: State, x: Word, k: nat)
    requires k <= 64
    ensures MixStep(MixUnstep(next, x, k), x, k) == next
  {
    var s0 := Rot(next.h11, 64 - k);
    var s11 := Minus(next.h10, next.h0);
    UndoPlus(s0, x);
    UndoXor(next.h1, next.h9);
    UndoXor(s11, s0);
    UndoRot(next.h11, 64 - k);
    UndoPlus(next.h10, next.h0);
  }

  function MixSteps(s: State, data: Block, n: nat): State
    requires n <= 12
  {
    if n == 0 then s else MixStep(MixSteps(s, data, n - 1), data[n - 1], MixRotation(n - 1))
  }

  function MixUnsteps(s: State, data: Block, n: nat): State
    requires n <= 12
    decreases n
  {
    if n == 0 then s else MixUnsteps(MixUnstep(s, data[n - 1], MixRotation(n - 1)), data, n - 1)
  }

  lemma {:induction false} MixStepsUndone(s: State, data: Block, n: nat)
    requires n <= 12
    ensures MixUnsteps(MixSteps(s, data, n), data, n) == s
    ensures MixSteps(MixUnsteps(s, data, n), data, n) == s
    decreases n
  {
    if n > 0 {
      MixStepUndone(MixSteps(s, data, n - 1), data[n - 1], MixRotation(n - 1));
      MixStepsUndone(s, data, n - 1);
      MixStepReached(s, data[n - 1], MixRotation(n - 1));
      MixStepsUndone(MixUnstep(s, data[n - 1], MixRotation(n - 1)), data, n - 1);
    }
  }

  /** The state after mixing one block of twelve words into it. */
  function Mixed(s: State, data: Block): State {
    MixSteps(s, data, 12)
  }

  function Unmixed(s: State, data: Block): State {
    MixUnsteps(s, data, 12)
  }

  /** For a fixed block, mixing is a bijection on the state. */
  lemma MixIsBijective(s: State, data: Block)
    ensures Unmixed(Mixed(s, data), data) == s
    ensures Mixed(Unmixed(s, data), data) == s
  {
    MixStepsUndone(s, data, 12);
  }

  method Mix(data: Block, h: State) returns (t: State)
    ensures t == Mixed(h, data)
  {
    var s0, s1, s2, s3, s4, s5 := h.h0, h.h1, h.h2, h.h3, h.h4, h.h5;
    var s6, s7, s8, s9, s10, s11 := h.h6, h.h7, h.h8, h.h9, h.h10, h.h11;
    s0 := Plus(s0, data[0]);
    s2 := Xor(s2, s10);  s11 := Xor(s11, s0);  s0 := Rot(s0, 11);  s11 := Plus(s11, s1);
    assert MixSteps(h, data, 1) == State(s1, s2, s3, s4, s5, s6, s7, s8, s9, s10, s11, s0);
    s1 := Plus(s1, data[1]);
    s3 := Xor(s3, s11);  s0 := Xor(s0, s1);  s1 := Rot(s1, 32);  s0 := Plus(s0, s2);
    assert MixSteps(h, data, 2) == State(s2, s3, s4, s5, s6, s7, s8, s9, s10, s11, s0, s1);
    s2 := Plus(s2, data[2]);
    s4 := Xor(s4, s0);  s1 := Xor(s1, s2);  s2 := Rot(s2, 43);  s1 := Plus(s1, s3);
    assert MixSteps(h, data, 3) == State(s3, s4, s5, s6, s7, s8, s9, s10, s11, s0, s1, s2);
    s3 := Plus(s3, data[3]);
    s5 := Xor(s5, s1);  s2 := Xor(s2, s3);  s3 := Rot(s3, 31);  s2 := Plus(s2, s4);
    assert MixSteps(h, data, 4) == State(s4, s5, s6, s7, s8, s9, s10, s11, s0, s1, s2, s3);
    s4 := Plus(s4, data[4]);
    s6 := Xor(s6, s2);  s3 := Xor(s3, s4);  s4 := Rot(s4, 17);  s3 := Plus(s3, s5);
    assert MixSteps(h, data, 5) == State(s5, s6, s7, s8, s9, s10, s11, s0, s1, s2, s3, s4);
    s5 := Plus(s5, data[5]);
    s7 := Xor(s7, s3);  s4 := Xor(s4, s5);  s5 := Rot(s5, 28);  s4 := Plus(s4, s6);
    assert MixSteps(h, data, 6) == State(s6, s7, s8, s9, s10, s11, s0, s1, s2, s3, s4, s5);
    s6 := Plus(s6, data[6]);
    s8 := Xor(s8, s4);  s5 := Xor(s5, s6);  s6 := Rot(s6, 39);  s5 := Plus(s5, s7);
    assert MixSteps(h, data, 7) == State(s7, s8, s9, s10, s11, s0, s1, s2, s3, s4, s5, s6);
    s7 := Plus(s7, data[7]);
    s9 := Xor(s9, s5);  s6 := Xor(s6, s7);  s7 := Rot(s7, 57);  s6 := Plus(s6, s8);
    assert MixSteps(h, data, 8) == State(s8, s9, s10, s11, s0, s1, s2, s3, s4, s5, s6, s7);
    s8 := Plus(s8, data[8]);
    s10 := Xor(s10, s6);  s7 := Xor(s7, s8);  s8 := Rot(s8, 55);  s7 := Plus(s7, s9);
    assert MixSteps(h, data, 9) == State(s9, s10, s11, s0, s1, s2, s3, s4, s5, s6, s7, s8);
    s9 := Plus(s9, data[9]);
    s11 := Xor(s11, s7);  s8 := Xor(s8, s9);  s9 := Rot(s9, 54);  s8 := Plus(s8, s10);
    assert MixSteps(h, data, 10) == State(s10, s11, s0, s1, s2, s3, s4, s5, s6, s7, s8, s9);
    s10 := Plus(s10, data[10]);
    s0 := Xor(s0, s8);  s9 := Xor(s9, s10);  s10 := Rot(s10, 22);  s9 := Plus(s9, s11);
    assert MixSteps(h, data, 11) == State(s11, s0, s1, s2, s3, s4, s5, s6, s7, s8, s9, s10);
    s11 := Plus(s11, data[11]);
    s1 := Xor(s1, s9);  s10 := Xor(s10, s11);  s11 := Rot(s11, 46);  s10 := Plus(s10, s0);
    assert MixSteps(h, data, 12) == State(s0, s1, s2, s3, s4, s5, s6, s7, s8, s9, s10, s11);
    t := State(s0, s1, s2, s3, s4, s5, s6, s7, s8, s9, s10, s11);
  }

  // ----- endPartial and end

  function EndRotation(i: nat): (k: nat)
    requires i < 12
    ensures k <= 64
  {
    match i
    case 0 => 44
    case 1 => 15
    case 2 => 34
    case 3 => 21
    case 4 => 38
    case 5 => 33
    case 6 => 10
    case 7 => 13
    case 8 => 38
    case 9 => 53
    case 10 => 42
    case _ => 54
  }

  function EndStep(s: State, k: nat): (next: State)
    requires k <= 64
  {
    var s11 := Plus(s.h11, s.h1);
    State(Rot(s.h1, k), Xor(s.h2, s11), s.h3, s.h4, s.h5, s.h6, s.h7, s.h8, s.h9, s.h10, s11, s.h0)
  }

  function EndUnstep(next: State, k: nat): (s: State)
    requires k <= 64
  {
    var s1 := Rot(next.h0, 64 - k);
    State(next.h11, s1, Xor(next.h1, next.h10), next.h2, next.h3, next.h4, next.h5, next.h6,
          next.h7, next.h8, next.h9, Minus(next.h10, s1))
  }

  lemma EndStepUndone(s: State, k: nat)
    requires k <= 64
    ensures EndUnstep(EndStep(s, k), k) == s
    ensures EndStep(EndUnstep(s, k), k) == s
  {
    UndoPlus(s.h11, s.h1);
    UndoXor(s.h2, Plus(s.h11, s.h1));
    UndoRot(s.h1, k);
    UndoPlus(s.h10, Rot(s.h0, 64 - k));
    UndoXor(s.h1, s.h10);
    UndoRot(s.h0, 64 - k);
  }

  function EndSteps(s: State, n: nat): State
    requires n <= 12
  {
    if n == 0 then s else EndStep(EndSteps(s, n - 1), EndRotation(n - 1))
  }

  function EndUnsteps(s: State, n: nat): State
    requires n <= 12
    decreases n
  {
    if n == 0 then s else EndUnsteps(EndUnstep(s, EndRotation(n - 1)), n - 1)
  }

  lemma {:induction false} EndStepsUndone(s: State, n: nat)
    requires n <= 12
    ensures EndUnsteps(EndSteps(s, n), n) == s
    ensures EndSteps(EndUnsteps(s, n), n) == s
    decreases n
  {
    if n > 0 {
      EndStepUndone(EndSteps(s, n - 1), EndRotation(n - 1));
      EndStepsUndone(s, n - 1);
      EndStepUndone(s, EndRotation(n - 1));
      EndStepsUndone(EndUnstep(s, EndRotation(n - 1)), n - 1);
    }
  }

  function PartlyEnded(s: State): State {
    EndSteps(s, 12)
  }

  function PartlyUnended(s: State): State {
    EndUnsteps(s, 12)
  }

  /** endPartial is a bijection on the state. */
  lemma EndPartialIsBijective(s: State)
    ensures PartlyUnended(PartlyEnded(s)) == s
    ensures PartlyEnded(PartlyUnended(s)) == s
  {
    EndStepsUndone(s, 12);
  }

  method EndPartial(h: State) returns (t: State)
    ensures t == PartlyEnded(h)
  {
    var s0, s1, s2, s3, s4, s5 := h.h0, h.h1, h.h2, h.h3, h.h4, h.h5;
    var s6, s7, s8, s9, s10, s11 := h.h6, h.h7, h.h8, h.h9, h.h10, h.h11;
    s11 := Plus(s11, s1);  s2 := Xor(s2, s11);  s1 := Rot(s1, 44);
    assert EndSteps(h, 1) == State(s1, s2, s3, s4, s5, s6, s7, s8, s9, s10, s11, s0);
    s0 := Plus(s0, s2);  s3 := Xor(s3, s0);  s2 := Rot(s2, 15);
    assert EndSteps(h, 2) == State(s2, s3, s4, s5, s6, s7, s8, s9, s10, s11, s0, s1);
    s1 := Plus(s1, s3);  s4 := Xor(s4, s1);  s3 := Rot(s3, 34);
    assert EndSteps(h, 3) == State(s3, s4, s5, s6, s7, s8, s9, s10, s11, s0, s1, s2);
    s2 := Plus(s2, s4);  s5 := Xor(s5, s2);  s4 := Rot(s4, 21);
    assert EndSteps(h, 4) == State(s4, s5, s6, s7, s8, s9, s10, s11, s0, s1, s2, s3);
    s3 := Plus(s3, s5);  s6 := Xor(s6, s3);  s5 := Rot(s5, 38);
    assert EndSteps(h, 5) == State(s5, s6, s7, s8, s9, s10, s11, s0, s1, s2, s3, s4);
    s4 := Plus(s4, s6);  s7 := Xor(s7, s4);  s6 := Rot(s6, 33);
    assert EndSteps(h, 6) == State(s6, s7, s8, s9, s10, s11, s0, s1, s2, s3, s4, s5);
    s5 := Plus(s5, s7);  s8 := Xor(s8, s5);  s7 := Rot(s7, 10);
    assert EndSteps(h, 7) == State(s7, s8, s9, s10, s11, s0, s1, s2, s3, s4, s5, s6);
    s6 := Plus(s6, s8);  s9 := Xor(s9, s6);  s8 := Rot(s8, 13);
    assert EndSteps(h, 8) == State(s8, s9, s10, s11, s0, s1, s2, s3, s4, s5, s6, s7);
    s7 := Plus(s7, s9);  s10 := Xor(s10, s7);  s9 := Rot(s9, 38);
    assert EndSteps(h, 9) == State(s9, s10, s11, s0, s1, s2, s3, s4, s5, s6, s7, s8);
    s8 := Plus(s8, s10);  s11 := Xor(s11, s8);  s10 := Rot(s10, 53);
    assert EndSteps(h, 10) == State(s10, s11, s0, s1, s2, s3, s4, s5, s6, s7, s8, s9);
    s9 := Plus(s9, s11);  s0 := Xor(s0, s9);  s11 := Rot(s11, 42);
    assert EndSteps(h, 11) == State(s11, s0, s1, s2, s3, s4, s5, s6, s7, s8, s9, s10);
    s10 := Plus(s10, s0);  s1 := Xor(s1, s10);  s0 := Rot(s0, 54);
    assert EndSteps(h, 12) == State(s0, s1, s2, s3, s4, s5, s6, s7, s8, s9, s10, s11);
    t := State(s0, s1, s2, s3, s4, s5, s6, s7, s8, s9, s10, s11);
  }

  function Added(s: State, data: Block): (t: State) {
    State(
      Plus(s.h0, data[0]), Plus(s.h1, data[1]), Plus(s.h2, data[2]), Plus(s.h3, data[3]),
      Plus(s.h4, data[4]), Plus(s.h5, data[5]), Plus(s.h6, data[6]), Plus(s.h7, data[7]),
      Plus(s.h8, data[8]), Plus(s.h9, data[9]), Plus(s.h10, data[10]), Plus(s.h11, data[11]))
  }

  function Subtracted(s: State, data: Block): (t: State) {
    State(
      Minus(s.h0, data[0]), Minus(s.h1, data[1]), Minus(s.h2, data[2]), Minus(s.h3, data[3]),
      Minus(s.h4, data[4]), Minus(s.h5, data[5]), Minus(s.h6, data[6]), Minus(s.h7, data[7]),
      Minus(s.h8, data[8]), Minus(s.h9, data[9]), Minus(s.h10, data[10]), Minus(s.h11, data[11]))
  }

  /** The state after the last block has been added and three rounds of endPartial have run. */
  function Ended(s: State, data: Block): State {
    PartlyEnded(PartlyEnded(PartlyEnded(Added(s, data))))
  }

  function Unended(s: State, data: Block): State {
    Subtracted(PartlyUnended(PartlyUnended(PartlyUnended(s))), data)
  }

  /** For a fixed last block, end is a bijection on the state. */
  lemma EndIsBijective(s: State, data: Block)
    ensures Unended(Ended(s, data), data) == s
    ensures Ended(Unended(s, data), data) == s
  {
    var a := Added(s, data);
    EndPartialIsBijective(a);
    EndPartialIsBijective(PartlyEnded(a));
    EndPartialIsBijective(PartlyEnded(PartlyEnded(a)));
    EndPartialIsBijective(s);
    EndPartialIsBijective(PartlyUnended(s));
    EndPartialIsBijective(PartlyUnended(PartlyUnended(s)));
    AddedSubtracted(s, data);
    AddedSubtracted(PartlyUnended(PartlyUnended(PartlyUnended(s))), data);
  }

  lemma AddedSubtracted(s: State, data: Block)
    ensures Subtracted(Added(s, data), data) == s
    ensures Added(Subtracted(s, data), data) == s
  {
    UndoPlus(s.h0, data[0]);
    UndoPlus(s.h1, data[1]);
    UndoPlus(s.h2, data[2]);
    UndoPlus(s.h3, data[3]);
    UndoPlus(s.h4, data[4]);
    UndoPlus(s.h5, data[5]);
    UndoPlus(s.h6, data[6]);
    UndoPlus(s.h7, data[7]);
    UndoPlus(s.h8, data[8]);
    UndoPlus(s.h9, data[9]);
    UndoPlus(s.h10, data[10]);
    UndoPlus(s.h11, data[11]);
  }

  method End(data: Block, h: State) returns (t: State)
    ensures t == Ended(h, data)
  {
    var s := Added(h, data);
    t := EndPartial(s);
    t := EndPartial(t);
    t := EndPartial(t);
  }

  // ----- short_mix and short_end: the view of h0 .. h3 starts at h2

  function ShortMixRotation(i: nat): (k: nat)
    requires i < 12
    ensures k <= 64
  {
    match i
    case 0 => 50
    case 1 => 52
    case 2 => 30
    case 3 => 41
    case 4 => 54
    case 5 => 48
    case 6 => 38
    case 7 => 37
    case 8 => 62
    case 9 => 34
    case 10 => 5
    case _ => 36
  }

  function ShortMixStep(s: Short, k: nat): (next: Short)
    requires k <= 64
  {
    var s0 := Plus(Rot(s.h0, k), s.h1);
    Short(s.h1, Xor(s.h2, s0), s.h3, s0)
  }

  function ShortMixUnstep(next: Short, k: nat): (s: Short)
    requires k <= 64
  {
    Short(Rot(Minus(next.h3, next.h0), 64 - k), next.h0, Xor(next.h1, next.h3), next.h2)
  }

  lemma ShortMixStepUndone(s: Short, k: nat)
    requires k <= 64
    ensures ShortMixUnstep(ShortMixStep(s, k), k) == s
    ensures ShortMixStep(ShortMixUnstep(s, k), k) == s
  {
    UndoRot(s.h0, k);
    UndoPlus(Rot(s.h0, k), s.h1);
    UndoXor(s.h2, Plus(Rot(s.h0, k), s.h1));
    UndoPlus(s.h3, s.h0);
    UndoRot(Minus(s.h3, s.h0), 64 - k);
    UndoXor(s.h1, s.h3);
  }

  function ShortMixSteps(s: Short, n: nat): Short
    requires n <= 12
  {
    if n == 0 then s else ShortMixStep(ShortMixSteps(s, n - 1), ShortMixRotation(n - 1))
  }

  function ShortMixUnsteps(s: Short, n: nat): Short
    requires n <= 12
    decreases n
  {
    if n == 0 then s else ShortMixUnsteps(ShortMixUnstep(s, ShortMixRotation(n - 1)), n - 1)
  }

  lemma {:induction false} ShortMixStepsUndone(s: Short, n: nat)
    requires n <= 12
    ensures ShortMixUnsteps(ShortMixSteps(s, n), n) == s
    ensures ShortMixSteps(ShortMixUnsteps(s, n), n) == s
    decreases n
  {
    if n > 0 {
      ShortMixStepUndone(ShortMixSteps(s, n - 1), ShortMixRotation(n - 1));
      ShortMixStepsUndone(s, n - 1);
      ShortMixStepUndone(s, ShortMixRotation(n - 1));
      ShortMixStepsUndone(ShortMixUnstep(s, ShortMixRotation(n - 1)), n - 1);
    }
  }

  /** The same four words, seen one place further on. */
  function Turned(s: Short): Short {
    Short(s.h1, s.h2, s.h3, s.h0)
  }

  /** The same four words, seen two places further on. */
  function Turned2(s: Short): Short {
    Short(s.h2, s.h3, s.h0, s.h1)
  }

  /** The same four words, seen three places further on. */
  function Turned3(s: Short): Short {
    Short(s.h3, s.h0, s.h1, s.h2)
  }

  function ShortMixed(h: Short): Short {
    Turned2(ShortMixSteps(Turned2(h), 12))
  }

  function ShortUnmixed(h: Short): Short {
    Turned2(ShortMixUnsteps(Turned2(h), 12))
  }

  /** short_mix is a bijection on its four words. */
  lemma ShortMixIsBijective(h: Short)
    ensures ShortUnmixed(ShortMixed(h)) == h
    ensures ShortMixed(ShortUnmixed(h)) == h
  {
    ShortMixStepsUndone(Turned2(h), 12);
  }

  method ShortMix(a: Word, b: Word, c: Word, d: Word) returns (h0: Word, h1: Word, h2: Word, h3: Word)
    ensures Short(h0, h1, h2, h3) == ShortMixed(Short(a, b, c, d))
  {
    h0, h1, h2, h3 := a, b, c, d;
    ghost var start := Short(h2, h3, h0, h1);
    h2 := Rot(h2, 50);  h2 := Plus(h2, h3);  h0 := Xor(h0, h2);
    assert ShortMixSteps(start, 1) == Short(h3, h0, h1, h2);
    h3 := Rot(h3, 52);  h3 := Plus(h3, h0);  h1 := Xor(h1, h3);
    assert ShortMixSteps(start, 2) == Short(h0, h1, h2, h3);
    h0 := Rot(h0, 30);  h0 := Plus(h0, h1);  h2 := Xor(h2, h0);
    assert ShortMixSteps(start, 3) == Short(h1, h2, h3, h0);
    h1 := Rot(h1, 41);  h1 := Plus(h1, h2);  h3 := Xor(h3, h1);
    assert ShortMixSteps(start, 4) == Short(h2, h3, h0, h1);
    h2 := Rot(h2, 54);  h2 := Plus(h2, h3);  h0 := Xor(h0, h2);
    assert ShortMixSteps(start, 5) == Short(h3, h0, h1, h2);
    h3 := Rot(h3, 48);  h3 := Plus(h3, h0);  h1 := Xor(h1, h3);
    assert ShortMixSteps(start, 6) == Short(h0, h1, h2, h3);
    h0 := Rot(h0, 38);  h0 := Plus(h0, h1);  h2 := Xor(h2, h0);
    assert ShortMixSteps(start, 7) == Short(h1, h2, h3, h0);
    h1 := Rot(h1, 37);  h1 := Plus(h1, h2);  h3 := Xor(h3, h1);
    assert ShortMixSteps(start, 8) == Short(h2, h3, h0, h1);
    h2 := Rot(h2, 62);  h2 := Plus(h2, h3);  h0 := Xor(h0, h2);
    assert ShortMixSteps(start, 9) == Short(h3, h0, h1, h2);
    h3 := Rot(h3, 34);  h3 := Plus(h3, h0);  h1 := Xor(h1, h3);
    assert ShortMixSteps(start, 10) == Short(h0, h1, h2, h3);
    h0 := Rot(h0, 5);  h0 := Plus(h0, h1);  h2 := Xor(h2, h0);
    assert ShortMixSteps(start, 11) == Short(h1, h2, h3, h0);
    h1 := Rot(h1, 36);  h1 := Plus(h1, h2);  h3 := Xor(h3, h1);
    assert ShortMixSteps(start, 12) == Short(h2, h3, h0, h1);
  }

  function ShortEndRotation(i: nat): (k: nat)
    requires i < 11
    ensures k <= 64
  {
    match i
    case 0 => 15
    case 1 => 52
    case 2 => 26
    case 3 => 51
    case 4 => 28
    case 5 => 9
    case 6 => 47
    case 7 => 54
    case 8 => 32
    case 9 => 25
    case _ => 63
  }

  function ShortEndStep(s: Short, k: nat): (next: Short)
    requires k <= 64
  {
    var s0 := Rot(s.h0, k);
    Short(Plus(Xor(s.h1, s.h0), s0), s.h2, s.h3, s0)
  }

  function ShortEndUnstep(next: Short, k: nat): (s: Short)
    requires k <= 64
  {
    var s0 := Rot(next.h3, 64 - k);
    Short(s0, Xor(Minus(next.h0, next.h3), s0), next.h1, next.h2)
  }

  lemma ShortEndStepUndone(s: Short, k: nat)
    requires k <= 64
    ensures ShortEndUnstep(ShortEndStep(s, k), k) == s
    ensures ShortEndStep(ShortEndUnstep(s, k), k) == s
  {
    UndoRot(s.h0, k);
    UndoPlus(Xor(s.h1, s.h0), Rot(s.h0, k));
    UndoXor(s.h1, s.h0);
    UndoRot(s.h3, 64 - k);
    UndoPlus(s.h0, s.h3);
    UndoXor(Minus(s.h0, s.h3), Rot(s.h3, 64 - k));
  }

  function ShortEndSteps(s: Short, n: nat): Short
    requires n <= 11
  {
    if n == 0 then s else ShortEndStep(ShortEndSteps(s, n - 1), ShortEndRotation(n - 1))
  }

  function ShortEndUnsteps(s: Short, n: nat): Short
    requires n <= 11
    decreases n
  {
    if n == 0 then s else ShortEndUnsteps(ShortEndUnstep(s, ShortEndRotation(n - 1)), n - 1)
  }

  lemma {:induction false} ShortEndStepsUndone(s: Short, n: nat)
    requires n <= 11
    ensures ShortEndUnsteps(ShortEndSteps(s, n), n) == s
    ensures ShortEndSteps(ShortEndUnsteps(s, n), n) == s
    decreases n
  {
    if n > 0 {
      ShortEndStepUndone(ShortEndSteps(s, n - 1), ShortEndRotation(n - 1));
      ShortEndStepsUndone(s, n - 1);
      ShortEndStepUndone(s, ShortEndRotation(n - 1));
      ShortEndStepsUndone(ShortEndUnstep(s, ShortEndRotation(n - 1)), n - 1);
    }
  }

  // Eleven lines leave the view at h1, so three more places bring h0 to the front.
  function ShortEnded(h: Short): Short {
    Turned3(ShortEndSteps(Turned2(h), 11))
  }

  function ShortUnended(h: Short): Short {
    Turned2(ShortEndUnsteps(Turned(h), 11))
  }

  /** short_end is a bijection on its four words. */
  lemma ShortEndIsBijective(h: Short)
    ensures ShortUnended(ShortEnded(h)) == h
    ensures ShortEnded(ShortUnended(h)) == h
  {
    ShortEndStepsUndone(Turned2(h), 11);
    ShortEndStepsUndone(Turned(h), 11);
  }

  method ShortEnd(a: Word, b: Word, c: Word, d: Word) returns (h0: Word, h1: Word, h2: Word, h3: Word)
    ensures Short(h0, h1, h2, h3) == ShortEnded(Short(a, b, c, d))
  {
    h0, h1, h2, h3 := a, b, c, d;
    ghost var start := Short(h2, h3, h0, h1);
    h3 := Xor(h3, h2);  h2 := Rot(h2, 15);  h3 := Plus(h3, h2);
    assert ShortEndSteps(start, 1) == Short(h3, h0, h1, h2);
    h0 := Xor(h0, h3);  h3 := Rot(h3, 52);  h0 := Plus(h0, h3);
    assert ShortEndSteps(start, 2) == Short(h0, h1, h2, h3);
    h1 := Xor(h1, h0);  h0 := Rot(h0, 26);  h1 := Plus(h1, h0);
    assert ShortEndSteps(start, 3) == Short(h1, h2, h3, h0);
    h2 := Xor(h2, h1);  h1 := Rot(h1, 51);  h2 := Plus(h2, h1);
    assert ShortEndSteps(start, 4) == Short(h2, h3, h0, h1);
    h3 := Xor(h3, h2);  h2 := Rot(h2, 28);  h3 := Plus(h3, h2);
    assert ShortEndSteps(start, 5) == Short(h3, h0, h1, h2);
    h0 := Xor(h0, h3);  h3 := Rot(h3, 9);  h0 := Plus(h0, h3);
    assert ShortEndSteps(start, 6) == Short(h0, h1, h2, h3);
    h1 := Xor(h1, h0);  h0 := Rot(h0, 47);  h1 := Plus(h1, h0);
    assert ShortEndSteps(start, 7) == Short(h1, h2, h3, h0);
    h2 := Xor(h2, h1);  h1 := Rot(h1, 54);  h2 := Plus(h2, h1);
    assert ShortEndSteps(start, 8) == Short(h2, h3, h0, h1);
    h3 := Xor(h3, h2);  h2 := Rot(h2, 32);  h3 := Plus(h3, h2);
    assert ShortEndSteps(start, 9) == Short(h3, h0, h1, h2);
    h0 := Xor(h0, h3);  h3 := Rot(h3, 25);  h0 := Plus(h0, h3);
    assert ShortEndSteps(start, 10) == Short(h0, h1, h2, h3);
    h1 := Xor(h1, h0);  h0 := Rot(h0, 63);  h1 := Plus(h1, h0);
    assert ShortEndSteps(start, 11) == Short(h1, h2, h3, h0);
  }
}
