/** The 64-bit length of a message: the eight big-endian bytes of the standard, and the four 16-bit digits in which
    algo/sha256.h counts it. */
module Sha256Length {
  import opened Bytes

  /** The low k bytes of n, most significant first. */
  function BigEndian(n: nat, k: nat): (r: Bytes)
    ensures |r| == k
    decreases k
  {
    if k == 0 then [] else BigEndian(n / 256, k - 1) + [ByteOf(n)]
  }

  /** Multiples of 256^k do not show in the low k bytes. */
  lemma {:induction false} BigEndianIgnoresHigh(n: nat, q: nat, k: nat)
    ensures BigEndian(n + Pow256(k) * q, k) == BigEndian(n, k)
    decreases k
  {
    hide ByteOf;
    if k > 0 {
      var p := Pow256(k - 1);
      Reassociate(256, p, q);
      ByteOfSame(n, p * q);
      BigEndianIgnoresHigh(n / 256, q, k - 1);
    }
  }

  /** Only the low 64 bits are written. */
  lemma BigEndian64Modulo(n: nat)
    ensures BigEndian(n, 8) == BigEndian(n % TWO64, 8)
  {
    hide ByteOf, BigEndian;
    assert Pow256(8) == TWO64 by { Pow256Eight(); }
    BigEndianIgnoresHigh(n % TWO64, n / TWO64, 8);
  }

  lemma Pow256Eight()
    ensures Pow256(8) == TWO64
  {
    assert Pow256(4) == 0x1_0000_0000;
  }

  // ---------------------------------------------------------------------------------------------
  // Four 16-bit digits, least significant first

  predicate Digits16(d: seq<nat>) {
    |d| == 4 && d[0] < 0x1_0000 && d[1] < 0x1_0000 && d[2] < 0x1_0000 && d[3] < 0x1_0000
  }

  function DigitsValue(d: seq<nat>): nat
    requires |d| == 4
  {
    d[0] + 0x1_0000 * (d[1] + 0x1_0000 * (d[2] + 0x1_0000 * d[3]))
  }

  /** What c is worth at digit i; a carry out of the last digit is worth 2^64 each. */
  function Weighted(c: nat, i: nat): nat
    requires i <= 4
  {
    match i
    case 0 => c
    case 1 => 0x1_0000 * c
    case 2 => 0x1_0000_0000 * c
    case 3 => 0x1_0000_0000_0000 * c
    case _ => TWO64 * c
  }

  lemma DigitsFit(d: seq<nat>)
    requires Digits16(d)
    ensures DigitsValue(d) < TWO64
  {
  }

  lemma ModuloUnique(total: nat, v: nat, c: nat)
    requires v < TWO64 && total == v + TWO64 * c
    ensures total % TWO64 == v
  {
  }

  /** Splitting one digit moves its excess to the next place. */
  lemma CarryMoves(d: seq<nat>, i: nat, x: nat)
    requires |d| == 4 && i < 4
    ensures DigitsValue(d[i := x % 0x1_0000]) + Weighted(x / 0x1_0000, i + 1) == DigitsValue(d[i := x])
  {
    assert x == x % 0x1_0000 + 0x1_0000 * (x / 0x1_0000);
    match i {
      case 0 => case 1 => case 2 => case _ =>
    }
  }

  lemma AddAtDigit(d: seq<nat>, i: nat, c: nat)
    requires |d| == 4 && i < 4
    ensures DigitsValue(d[i := d[i] + c]) == DigitsValue(d) + Weighted(c, i)
  {
    match i {
      case 0 => case 1 => case 2 => case _ =>
    }
  }

  /** Two bytes per digit. */
  lemma DigitBytes(e: nat, r: nat, k: nat)
    requires e < 0x1_0000
    ensures BigEndian(e + 0x1_0000 * r, k + 2) == BigEndian(r, k) + [ByteOf(e / 256), ByteOf(e)]
  {
    hide ByteOf;
    var n := e + 0x1_0000 * r;
    assert n / 256 == e / 256 + 256 * r && n / 256 / 256 == r;
    ByteOfSame(e, 256 * r);
    ByteOfSame(e / 256, r);
    assert BigEndian(n, k + 2) == BigEndian(n / 256, k + 1) + [ByteOf(n)];
  }
}
