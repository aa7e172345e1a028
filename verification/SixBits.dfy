/** Three bytes as four values of six bits, whose bits never overlap, so that | is written +. */
module SixBits {
  import opened Bytes
  import opened Words

  // The bytes that the shifted values make, each cut off at eight bits.
  function Byte0(v0: nat, v1: nat): byte
    requires v0 < 64 && v1 < 64
  {
    v0 * 4 + v1 / 16
  }

  function Byte1(v1: nat, v2: nat): byte
    requires v1 < 64 && v2 < 64
  {
    v1 * 16 % 256 + v2 / 4
  }

  function Byte2(v2: nat, v3: nat): byte
    requires v2 < 64 && v3 < 64
  {
    v2 * 64 % 256 + v3
  }

  lemma ThreeBytes(a: byte, b: byte, c: byte)
    ensures Byte0(a / 4, a % 4 * 16 + b / 16) == a
    ensures Byte1(a % 4 * 16 + b / 16, b % 16 * 4 + c / 64) == b
    ensures Byte2(b % 16 * 4 + c / 64, c % 64) == c
  {
    CutOff16(a % 4, b / 16);
    CutOff4(b % 16, c / 64);
  }

  // The bits that were shifted out at the top.
  lemma CutOff16(high: nat, low: nat)
    requires low < 16
    ensures (high * 16 + low) * 16 % 256 == low * 16
  {
    QuotientAndRemainder((high * 16 + low) * 16, high, low * 16, 256);
  }

  lemma CutOff4(high: nat, low: nat)
    requires low < 4
    ensures (high * 4 + low) * 64 % 256 == low * 64
  {
    QuotientAndRemainder((high * 4 + low) * 64, high, low * 64, 256);
  }

  /** Digit m of the number that three bytes make, to the base 64, the highest one first. */
  function Sextet(a: byte, b: byte, c: byte, m: nat): (v: nat)
    ensures v < 64
  {
    var n: nat := 65536 * (a as int) + 256 * (b as int) + c;
    match m
    case 0 => n / 262144 % 64
    case 1 => n / 4096 % 64
    case 2 => n / 64 % 64
    case _ => n % 64
  }

  /** The bits that the shifts pick are these digits. */
  lemma Sextets(a: byte, b: byte, c: byte)
    ensures Sextet(a, b, c, 0) == a / 4
    ensures Sextet(a, b, c, 1) == a % 4 * 16 + b / 16
    ensures Sextet(a, b, c, 2) == b % 16 * 4 + c / 64
    ensures Sextet(a, b, c, 3) == c % 64
  {
    var n: nat := 65536 * (a as int) + 256 * (b as int) + c;
    var v0, v1, v2, v3 := a / 4, a % 4 * 16 + b / 16, b % 16 * 4 + c / 64, c % 64;
    QuotientAndRemainder(v0, 0, v0, 64);
    QuotientAndRemainder(n, v0, 4096 * v1 + 64 * v2 + v3, 262144);
    QuotientAndRemainder(n, 64 * v0 + v1, 64 * v2 + v3, 4096);
    QuotientAndRemainder(n, 4096 * v0 + 64 * v1 + v2, v3, 64);
    QuotientAndRemainder(64 * v0 + v1, v0, v1, 64);
    QuotientAndRemainder(4096 * v0 + 64 * v1 + v2, 64 * v0 + v1, v2, 64);
  }
}
