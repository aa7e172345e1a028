/** Unsigned 64-bit words: wrap-around arithmetic, exclusive or and rotation, with the inverses of all three. */
module Words {

  const WORD_LIMIT := 0x1_0000_0000_0000_0000

  /** A uint64_t. */
  type Word = x: nat | x < WORD_LIMIT

  function Pow2(n: nat): (p: nat)
    ensures p > 0
  {
    if n == 0 then 1 else 2 * Pow2(n - 1)
  }

  lemma {:induction false} Pow2Sum(m: nat, n: nat)
    ensures Pow2(m + n) == Pow2(m) * Pow2(n)
  {
    if m > 0 {
      Pow2Sum(m - 1, n);
      assert Pow2(m + n) == 2 * (Pow2(m - 1) * Pow2(n));
    }
  }

  lemma Pow2Byte()
    ensures Pow2(8) == 256
  {
    assert Pow2(4) == 16;
  }

  lemma Pow2Word()
    ensures Pow2(64) == WORD_LIMIT
  {
    hide Pow2;
    Pow2Byte();
    Pow2Sum(8, 8);
    Pow2Sum(16, 16);
    Pow2Sum(32, 32);
  }

  /** x + y of two uint64_t, which wraps round at 2^64. */
  function Plus(x: Word, y: Word): Word {
    if x + y < WORD_LIMIT then x + y else x + y - WORD_LIMIT
  }

  /** x - y of two uint64_t, which wraps round below 0. */
  function Minus(x: Word, y: Word): Word {
    if x >= y then x - y else x - y + WORD_LIMIT
  }

  /** The lowest n bits of x ^ y. */
  function XorBits(x: nat, y: nat, n: nat): (z: nat)
    ensures z < Pow2(n)
  {
    if n == 0 then 0 else 2 * XorBits(x / 2, y / 2, n - 1) + (if x % 2 != y % 2 then 1 else 0)
  }

  /** Bit i of x. */
  function BitAt(x: nat, i: nat): nat {
    if i == 0 then x % 2 else BitAt(x / 2, i - 1)
  }

  lemma {:induction false} XorBitsByBit(x: nat, y: nat, n: nat, i: nat)
    requires i < n
    ensures BitAt(XorBits(x, y, n), i) == if BitAt(x, i) != BitAt(y, i) then 1 else 0
  {
    var z := XorBits(x / 2, y / 2, n - 1);
    assert XorBits(x, y, n) / 2 == z;
    if i > 0 {
      XorBitsByBit(x / 2, y / 2, n - 1, i - 1);
    }
  }

  /** The lowest n bits of x | y. */
  function OrBits(x: nat, y: nat, n: nat): (z: nat)
    ensures z < Pow2(n)
  {
    if n == 0 then 0 else 2 * OrBits(x / 2, y / 2, n - 1) + (if x % 2 == 1 || y % 2 == 1 then 1 else 0)
  }

  lemma {:induction false} OrBitsByBit(x: nat, y: nat, n: nat, i: nat)
    requires i < n
    ensures BitAt(OrBits(x, y, n), i) == if BitAt(x, i) == 1 || BitAt(y, i) == 1 then 1 else 0
  {
    var z := OrBits(x / 2, y / 2, n - 1);
    assert OrBits(x, y, n) / 2 == z;
    if i > 0 {
      OrBitsByBit(x / 2, y / 2, n - 1, i - 1);
    }
  }

  /** x | y is as long as the longer one of x and y. */
  lemma {:induction false} OrBitsBelow(x: nat, y: nat, n: nat, k: nat)
    requires k <= n && x < Pow2(n) && y < Pow2(n)
    ensures OrBits(x, y, n) < Pow2(k) <==> x < Pow2(k) && y < Pow2(k)
  {
    if n > 0 {
      OrBitsBelow(x / 2, y / 2, n - 1, if k > 0 then k - 1 else 0);
    }
  }

  /** x ^ y of two uint64_t. */
  function Xor(x: Word, y: Word): Word {
    Pow2Word();
    XorBits(x, y, 64)
  }

  /** x << k */
  function ShiftLeft(x: Word, k: nat): Word {
    if k == 0 then x else 2 * ShiftLeft(x, k - 1) % WORD_LIMIT
  }

  /** x >> k */
  function ShiftRight(x: Word, k: nat): Word {
    if k == 0 then x else ShiftRight(x, k - 1) / 2
  }

  /** (x << k) | (x >> (64 - k)): the two halves share no bit, so | is a sum. */
  function Rot(x: Word, k: nat): Word
    requires k <= 64
  {
    RotSplit(x, k);
    ShiftLeft(x, k) + ShiftRight(x, 64 - k)
  }

  lemma {:induction false} ShiftLeftIsProduct(x: Word, k: nat)
    ensures ShiftLeft(x, k) == x * Pow2(k) % WORD_LIMIT
  {
    if k > 0 {
      ShiftLeftIsProduct(x, k - 1);
      DoubledRemainder(x * Pow2(k - 1), WORD_LIMIT);
      Twice(x, Pow2(k - 1));
    }
  }

  lemma Twice(x: nat, y: nat)
    ensures x * (2 * y) == 2 * (x * y)
  {
  }

  lemma DoubledRemainder(y: nat, m: nat)
    requires m > 0
    ensures 2 * (y % m) % m == 2 * y % m
  {
    var q, r := y / m, y % m;
    Distribute(q, q, m);
    if 2 * r < m {
      QuotientAndRemainder(2 * y, q + q, 2 * r, m);
      QuotientAndRemainder(2 * r, 0, 2 * r, m);
    } else {
      Distribute(q + q, 1, m);
      QuotientAndRemainder(2 * y, q + q + 1, 2 * r - m, m);
      QuotientAndRemainder(2 * r, 1, 2 * r - m, m);
    }
  }

  lemma {:induction false} ShiftRightIsQuotient(x: Word, k: nat)
    ensures ShiftRight(x, k) == x / Pow2(k)
  {
    if k > 0 {
      ShiftRightIsQuotient(x, k - 1);
      HalvedQuotient(x, Pow2(k - 1));
    }
  }

  lemma HalvedQuotient(x: nat, p: nat)
    requires p > 0
    ensures x / p / 2 == x / (2 * p)
  {
    var y := x / p;
    var h, b := y / 2, y % 2;
    Regroup(y, h, b, p, 2);
    assert b * p <= p;
    QuotientAndRemainder(x, h, b * p + x % p, 2 * p);
  }

  lemma Distribute(a: int, b: int, m: int)
    ensures (a + b) * m == a * m + b * m
  {
  }

  lemma AtLeastOnce(a: int, m: int)
    requires a >= 1 && m >= 0
    ensures a * m >= m
  {
  }

  lemma QuotientAndRemainder(n: nat, a: nat, b: nat, m: nat)
    requires n == a * m + b && b < m
    ensures n / m == a && n % m == b
  {
    var d := n / m - a;
    assert d * m == b - n % m by {
      assert n == n / m * m + n % m;
    }
    if d >= 1 {
      AtLeastOnce(d, m);
    } else if d <= -1 {
      AtLeastOnce(-d, m);
    }
  }

  // The low 64 - k bits of x move up by k; the high k bits come round to the bottom.
  lemma RotSplit(x: Word, k: nat)
    requires k <= 64
    ensures x / Pow2(64 - k) < Pow2(k)
    ensures ShiftLeft(x, k) == x % Pow2(64 - k) * Pow2(k)
    ensures ShiftRight(x, 64 - k) == x / Pow2(64 - k)
    ensures ShiftLeft(x, k) + ShiftRight(x, 64 - k) < WORD_LIMIT
  {
    Pow2Sum(k, 64 - k);
    Pow2Word();
    SplitProduct(x, Pow2(k), Pow2(64 - k));
    ShiftLeftIsProduct(x, k);
    ShiftRightIsQuotient(x, 64 - k);
  }

  lemma SplitProduct(x: nat, p: nat, q: nat)
    requires p > 0 && q > 0 && x < p * q
    ensures x / q < p
    ensures x * p % (p * q) == x % q * p
    ensures x % q * p + x / q < p * q
  {
    var hi, lo := x / q, x % q;
    SplitBounds(hi, lo, p, q);
    Regroup(x, hi, lo, p, q);
    QuotientAndRemainder(x * p, hi, lo * p, p * q);
  }

  lemma SplitBounds(hi: nat, lo: nat, p: nat, q: nat)
    requires lo < q && hi * q + lo < p * q
    ensures hi < p && lo * p + p <= p * q
  {
    if hi >= p {
      Monotone(p, hi, q);
    }
    Monotone(lo + 1, q, p);
    assert (lo + 1) * p == lo * p + p;
  }

  lemma Monotone(a: nat, b: nat, m: nat)
    requires a <= b
    ensures a * m <= b * m
  {
    assert b * m == a * m + (b - a) * m;
  }

  lemma Regroup(x: nat, hi: nat, lo: nat, p: nat, q: nat)
    requires x == hi * q + lo
    ensures x * p == hi * (p * q) + lo * p
  {
  }

  /** Sum and difference are those of the integers, modulo 2^64. */
  lemma PlusIsSum(x: Word, y: Word)
    ensures Plus(x, y) == (x + y) % WORD_LIMIT
    ensures Minus(x, y) == (x - y) % WORD_LIMIT
  {
  }

  lemma PlusSum(x: Word, y: Word, z: Word)
    requires y + z < WORD_LIMIT
    ensures Plus(Plus(x, y), z) == Plus(x, y + z)
    ensures Plus(x, 0) == x
  {
  }

  lemma UndoPlus(x: Word, y: Word)
    ensures Minus(Plus(x, y), y) == x
    ensures Plus(Minus(x, y), y) == x
  {
  }

  lemma XorByBit(x: Word, y: Word, i: nat)
    requires i < 64
    ensures BitAt(Xor(x, y), i) == if BitAt(x, i) != BitAt(y, i) then 1 else 0
  {
    XorBitsByBit(x, y, 64, i);
  }

  lemma {:induction false} UndoXorBits(x: nat, y: nat, n: nat)
    requires x < Pow2(n)
    ensures XorBits(XorBits(x, y, n), y, n) == x
  {
    if n > 0 {
      UndoXorBits(x / 2, y / 2, n - 1);
      var z := XorBits(x / 2, y / 2, n - 1);
      assert XorBits(x, y, n) / 2 == z;
    }
  }

  lemma UndoXor(x: Word, y: Word)
    ensures Xor(Xor(x, y), y) == x
  {
    Pow2Word();
    UndoXorBits(x, y, 64);
  }

  lemma {:induction false} BitAtIs(x: nat, i: nat)
    ensures BitAt(x, i) == x / Pow2(i) % 2
  {
    if i > 0 {
      BitAtIs(x / 2, i - 1);
      HalfFirst(x, Pow2(i - 1));
    }
  }

  lemma HalfFirst(x: nat, p: nat)
    requires p > 0
    ensures x / 2 / p == x / (2 * p)
  {
    var h, b := x / 2, x % 2;
    var q, r := h / p, h % p;
    assert x == q * (2 * p) + (2 * r + b) by {
      Twice(q, p);
    }
    QuotientAndRemainder(x, q, 2 * r + b, 2 * p);
  }

  // The bits of hi are below those of lo.
  lemma {:induction false} BitsOfSplit(lo: nat, hi: nat, k: nat, i: nat)
    requires hi < Pow2(k)
    ensures BitAt(lo * Pow2(k) + hi, i) == if i < k then BitAt(hi, i) else BitAt(lo, i - k)
    decreases k
  {
    if k > 0 {
      var p := Pow2(k - 1);
      Twice(lo, p);
      assert lo * Pow2(k) + hi == 2 * (lo * p) + hi;
      if i > 0 {
        assert (2 * (lo * p) + hi) / 2 == lo * p + hi / 2;
        BitsOfSplit(lo, hi / 2, k - 1, i - 1);
      }
    }
  }

  lemma RotIs(x: Word, k: nat)
    requires k <= 64
    ensures x == x / Pow2(64 - k) * Pow2(64 - k) + x % Pow2(64 - k)
    ensures Rot(x, k) == x % Pow2(64 - k) * Pow2(k) + x / Pow2(64 - k)
    ensures x / Pow2(64 - k) < Pow2(k)
  {
    hide Pow2, ShiftLeft, ShiftRight;
    RotSplit(x, k);
    QuotientTimes(x, Pow2(64 - k));
  }

  lemma QuotientTimes(x: nat, m: nat)
    requires m > 0
    ensures x == x / m * m + x % m
  {
  }

  /** A rotation by k moves each bit up by k places, and round to the bottom from the top. */
  lemma RotByBit(x: Word, k: nat, i: nat)
    requires k <= 64 && i < 64
    ensures BitAt(Rot(x, k), (i + k) % 64) == BitAt(x, i)
  {
    hide BitAt, Pow2, Rot;
    var hi, lo := x / Pow2(64 - k), x % Pow2(64 - k);
    RotIs(x, k);
    BitsOfSplit(hi, lo, 64 - k, i);
    if i + k < 64 {
      BitsOfSplit(lo, hi, k, i + k);
    } else {
      RoundToBottom(i + k);
      BitsOfSplit(lo, hi, k, i + k - 64);
    }
  }

  lemma RoundToBottom(n: nat)
    requires 64 <= n < 128
    ensures n % 64 == n - 64
  {
  }

  lemma UndoRot(x: Word, k: nat)
    requires k <= 64
    ensures Rot(Rot(x, k), 64 - k) == x
  {
    var y := Rot(x, k);
    RotSplit(x, k);
    RotSplit(y, 64 - k);
    UndoSplit(x, y, Pow2(k), Pow2(64 - k));
  }

  lemma UndoSplit(x: nat, y: nat, p: nat, q: nat)
    requires p > 0 && q > 0 && x / q < p
    requires y == x % q * p + x / q
    ensures y % p * q + y / p == x
  {
    QuotientAndRemainder(y, x % q, x / q, p);
  }
}
