/** Bytes that come in whole blocks of m bytes. */
module Blocks {
  import opened Words

  /** n bytes are whole blocks. */
  predicate Whole(n: nat, m: nat)
    requires m > 0
  {
    n % m == 0
  }

  /** The bytes in the whole blocks of n bytes. */
  function WholePart(n: nat, m: nat): (w: nat)
    requires m > 0
    ensures w <= n < w + m && Whole(w, m)
  {
    QuotientAndRemainder(n / m * m, n / m, 0, m);
    n / m * m
  }

  lemma NoneIsWhole(m: nat)
    requires m > 0
    ensures Whole(0, m)
  {
  }

  lemma OneIsWhole(m: nat)
    requires m > 0
    ensures Whole(m, m)
  {
    QuotientAndRemainder(m, 1, 0, m);
  }

  lemma WholeSum(a: nat, b: nat, m: nat)
    requires m > 0 && Whole(a, m) && Whole(b, m)
    ensures Whole(a + b, m)
  {
    Distribute(a / m, b / m, m);
    QuotientAndRemainder(a + b, a / m + b / m, 0, m);
  }

  /** Between two whole numbers of blocks there is room for one block more. */
  lemma WholeNext(a: nat, b: nat, m: nat)
    requires m > 0 && a < b && Whole(a, m) && Whole(b, m)
    ensures a + m <= b && Whole(a + m, m) && Whole(b - m, m)
  {
    var i, j := a / m, b / m;
    NextMultiple(i, j, m);
    QuotientAndRemainder(a + m, i + 1, 0, m);
    QuotientAndRemainder(b - m, j - 1, 0, m);
  }

  lemma NextMultiple(i: nat, j: nat, m: nat)
    requires i * m < j * m
    ensures i < j && (i + 1) * m == i * m + m <= j * m && (j - 1) * m == j * m - m
  {
    if i >= j {
      Monotone(j, i, m);
    } else {
      Monotone(i + 1, j, m);
    }
    Distribute(i, 1, m);
    Distribute(j, -1, m);
  }

  /** The last whole number of blocks is the only one so near to the end. */
  lemma WholePartIs(n: nat, w: nat, m: nat)
    requires m > 0 && Whole(w, m) && w <= n < w + m
    ensures w == WholePart(n, m)
  {
    QuotientAndRemainder(n, w / m, n - w, m);
  }
}
