/** The shifts by which the library snaps a size to a power of two. */
module SnapUp {
  import opened Words
  import opened Bstrings

  /** x >> j */
  function Halved(x: nat, j: nat): nat {
    if j == 0 then x else Halved(x / 2, j - 1)
  }

  /** The shifts of snapUpSize, on 32-bit words. */
  function Smeared(i: nat): nat {
    var j := OrBits(i, Halved(i, 1), 32);
    var j := OrBits(j, Halved(j, 2), 32);
    var j := OrBits(j, Halved(j, 4), 32);
    var j := OrBits(j, Halved(j, 8), 32);
    OrBits(j, Halved(j, 16), 32)
  }

  // ----- shifts

  lemma {:induction false} HalvedSum(x: nat, i: nat, j: nat)
    ensures Halved(x, i + j) == Halved(Halved(x, i), j)
  {
    if i > 0 {
      HalvedSum(x / 2, i - 1, j);
    }
  }

  lemma {:induction false} HalvedBelow(x: nat, j: nat, k: nat)
    requires x < Pow2(j + k)
    ensures Halved(x, j) < Pow2(k)
  {
    if j > 0 {
      HalvedBelow(x / 2, j - 1, k);
    }
  }

  lemma {:induction false} HalvedToOne(x: nat, k: nat)
    requires Pow2(k) <= x < Pow2(k + 1)
    ensures Halved(x, k) == 1
  {
    if k > 0 {
      HalvedToOne(x / 2, k - 1);
    }
  }

  lemma {:induction false} HalvedOnes(m: nat, j: nat)
    requires j <= m
    ensures Halved(Pow2(m) - 1, j) == Pow2(m - j) - 1
  {
    if j > 0 {
      HalvedOnes(m - 1, j - 1);
      assert (Pow2(m) - 1) / 2 == Pow2(m - 1) - 1;
    }
  }

  lemma {:induction false} HalvedOr(x: nat, y: nat, n: nat, j: nat)
    requires j <= n
    ensures Halved(OrBits(x, y, n), j) == OrBits(Halved(x, j), Halved(y, j), n - j)
  {
    if j > 0 {
      HalvedOr(x / 2, y / 2, n - 1, j - 1);
      assert OrBits(x, y, n) / 2 == OrBits(x / 2, y / 2, n - 1);
    }
  }

  lemma {:induction false} HalvedAtMost(x: nat, j: nat)
    ensures Halved(x, j) <= x
  {
    if j > 0 {
      HalvedAtMost(x / 2, j - 1);
    }
  }

  lemma {:induction false} Pow2Grows(a: nat, b: nat)
    requires a <= b
    ensures Pow2(a) <= Pow2(b)
  {
    if a < b {
      Pow2Grows(a, b - 1);
    }
  }

  lemma {:induction false} OrZero(x: nat, n: nat)
    requires x < Pow2(n)
    ensures OrBits(x, 0, n) == x
  {
    if n > 0 {
      OrZero(x / 2, n - 1);
    }
  }

  /** The lowest t bits of x are set. */
  lemma {:induction false} OrLow(x: nat, t: nat, n: nat)
    requires t <= n && x < Pow2(n)
    ensures OrBits(x, Pow2(t) - 1, n) == Halved(x, t) * Pow2(t) + Pow2(t) - 1
  {
    if t == 0 {
      OrZero(x, n);
    } else {
      var h, p := Halved(x / 2, t - 1), Pow2(t - 1);
      OrLow(x / 2, t - 1, n - 1);
      LowBits(p);
      assert OrBits(x, Pow2(t) - 1, n) == 2 * OrBits(x / 2, p - 1, n - 1) + 1;
      Doubled(h, p);
    }
  }

  lemma LowBits(p: nat)
    requires p > 0
    ensures (2 * p - 1) % 2 == 1 && (2 * p - 1) / 2 == p - 1
  {
  }

  lemma Doubled(h: nat, p: nat)
    ensures 2 * (h * p) == h * (2 * p)
  {
  }

  lemma Ones(m: nat, t: nat)
    ensures (Pow2(m) - 1) * Pow2(t) + Pow2(t) - 1 == Pow2(m + t) - 1
  {
    Pow2Sum(m, t);
    assert (Pow2(m) - 1) * Pow2(t) == Pow2(m) * Pow2(t) - Pow2(t);
  }

  // ----- the smearing

  /** Of the k + 1 bits of x, the m highest ones are set. */
  ghost predicate Filled(x: nat, k: nat, m: nat) {
    x < Pow2(k + 1) && m <= k + 1 && Halved(x, k + 1 - m) == Pow2(m) - 1
  }

  /** A shift by the number of bits that are set doubles that number, and a shift of a full word changes nothing. */
  lemma SmearStep(x: nat, k: nat, m: nat, s: nat)
    requires Filled(x, k, m) && k + 1 <= 32 && (if m < k + 1 then s == m else s >= m)
    ensures Filled(OrBits(x, Halved(x, s), 32), k, if 2 * m < k + 1 then 2 * m else k + 1)
  {
    hide Halved, OrBits, Pow2;
    Bounds(x, k, s);
    OrBitsBelow(x, Halved(x, s), 32, k + 1);
    if m < k + 1 {
      var t := if 2 * m < k + 1 then m else k + 1 - m;
      var j := k + 1 - m - t;
      HalvedOr(x, Halved(x, m), 32, j);
      HalvedSum(x, m, j);
      HalvedSum(x, k + 1 - m, m - t);
      HalvedOnes(m, m - t);
      HalvedSum(x, j, t);
      HalvedBelow(x, j, 32 - j);
      OrLow(Halved(x, j), t, 32 - j);
      Ones(m, t);
    } else {
      var t := if s <= k + 1 then k + 1 - s else 0;
      AllBits(x, k);
      FullStaysFull(x, k, s, t);
      NotHalved(x);
    }
  }

  lemma Bounds(x: nat, k: nat, s: nat)
    requires x < Pow2(k + 1) && k + 1 <= 32
    ensures x < Pow2(32) && Halved(x, s) <= x && Halved(x, s) < Pow2(32)
    ensures s > k + 1 ==> Halved(x, s) == 0
  {
    hide Halved, Pow2;
    Pow2Grows(k + 1, 32);
    HalvedAtMost(x, s);
    if s > k + 1 {
      Pow2Grows(k + 1, s);
      HalvedBelow(x, s, 0);
      assert Pow2(0) == 1 by {
        PowZero();
      }
    }
  }

  lemma PowZero()
    ensures Pow2(0) == 1
  {
  }

  lemma FullStaysFull(x: nat, k: nat, s: nat, t: nat)
    requires x == Pow2(k + 1) - 1 && k + 1 <= 32 && t == if s <= k + 1 then k + 1 - s else 0
    requires x < Pow2(32) && (s > k + 1 ==> Halved(x, s) == 0)
    ensures OrBits(x, Halved(x, s), 32) == x
  {
    hide Halved, OrBits, Pow2;
    PowZero();
    if s <= k + 1 {
      HalvedOnes(k + 1, s);
    }
    assert Halved(x, s) == Pow2(t) - 1;
    OrLow(x, t, 32);
    HalvedOnes(k + 1, t);
    Ones(k + 1 - t, t);
  }

  lemma NotHalved(x: nat)
    ensures Halved(x, 0) == x
  {
  }

  /** Five shifts set all the bits below the highest one, for words of up to thirty-two bits. */
  lemma SmearedIsFull(i: nat, k: nat)
    requires Pow2(k) <= i < Pow2(k + 1) && k + 1 <= 32
    ensures Smeared(i) == Pow2(k + 1) - 1
  {
    hide Halved, OrBits, Pow2, Filled;
    FirstBit(i, k);
    var m1 := if 2 < k + 1 then 2 else k + 1;
    var m2 := if 4 < k + 1 then 4 else k + 1;
    var m3 := if 8 < k + 1 then 8 else k + 1;
    var m4 := if 16 < k + 1 then 16 else k + 1;
    var j1 := OrBits(i, Halved(i, 1), 32);
    var j2 := OrBits(j1, Halved(j1, 2), 32);
    var j3 := OrBits(j2, Halved(j2, 4), 32);
    var j4 := OrBits(j3, Halved(j3, 8), 32);
    SmearStep(i, k, 1, 1);
    SmearStep(j1, k, m1, 2);
    SmearStep(j2, k, m2, 4);
    SmearStep(j3, k, m3, 8);
    SmearStep(j4, k, m4, 16);
    AllBits(Smeared(i), k);
  }

  lemma FirstBit(i: nat, k: nat)
    requires Pow2(k) <= i < Pow2(k + 1)
    ensures Filled(i, k, 1)
  {
    HalvedToOne(i, k);
  }

  lemma AllBits(x: nat, k: nat)
    requires Filled(x, k, k + 1)
    ensures x == Pow2(k + 1) - 1
  {
    NotHalved(x);
  }

  // ----- the snapped size

  /** The place of the highest bit. */
  function HighestBit(i: nat): (k: nat)
    requires i > 0
    ensures Pow2(k) <= i < Pow2(k + 1)
  {
    if i == 1 then 0 else HighestBit(i / 2) + 1
  }

  lemma {:induction false} PowerAboveIs(i: nat, a: nat, k: nat)
    requires Pow2(k) <= i < Pow2(k + 1) && a <= k + 1
    ensures PowerAbove(i, Pow2(a)) == Pow2(k + 1)
    decreases k + 1 - a
  {
    if a <= k {
      Pow2Grows(a, k);
      PowerAboveIs(i, a + 1, k);
    }
  }

  /**
    The snapped size is a power of two, from 8 on the least one that is greater than i; and the shifts compute it.
   */
  lemma SnapUpSizeIsSmeared(i: int)
    requires i < 0x4000_0000
    ensures i < 8 ==> SnapUpSize(i) == 8
    ensures i >= 8 ==> SnapUpSize(i) == Smeared(i) + 1 <= 0x4000_0000
    ensures i >= 8 ==> var k := HighestBit(i); Pow2(k) <= i < Pow2(k + 1) == SnapUpSize(i)
  {
    if i >= 8 {
      SmearedFromEight(i);
    }
  }

  lemma SmearedFromEight(i: nat)
    requires 8 <= i < 0x4000_0000
    ensures SnapUpSize(i) == Smeared(i) + 1 <= 0x4000_0000
    ensures var k := HighestBit(i); Pow2(k) <= i < Pow2(k + 1) == SnapUpSize(i)
  {
    hide PowerAbove, Smeared, HighestBit;
    var k := HighestBit(i);
    SmallPowers();
    if k < 3 {
      Pow2Grows(k + 1, 3);
    }
    if k >= 30 {
      Pow2Grows(30, k);
    } else {
      Pow2Grows(k + 1, 30);
    }
    SmearedIsFull(i, k);
    PowerAboveIs(i, 3, k);
  }

  lemma SmallPowers()
    ensures Pow2(3) == 8 && Pow2(30) == 0x4000_0000
  {
    assert Pow2(6) == 64;
    Pow2Sum(6, 6);
    Pow2Sum(12, 12);
    Pow2Sum(24, 6);
  }
}
