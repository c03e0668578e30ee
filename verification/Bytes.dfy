/** The byte alphabet shared by the whole model: the source's u8. */
module Bytes {
  type Byte = bv8
  type Bytes = seq<Byte>

  /** The low byte of n. */
  function ByteOf(n: nat): Byte {
    (n % 256) as Byte
  }

  /** The low k bytes of n, least significant first. */
  function LittleEndian(n: nat, k: nat): (r: Bytes)
    ensures |r| == k
    decreases k
  {
    if k == 0 then [] else [ByteOf(n)] + LittleEndian(n / 256, k - 1)
  }

  const TWO32: nat := 0x1_0000_0000
  const TWO64: nat := 0x1_0000_0000_0000_0000

  type U32 = x: nat | x < TWO32

  /** 32-bit unsigned arithmetic. */
  function Wrap(x: int): U32 {
    x % TWO32
  }

  function Pow256(k: nat): (r: nat)
    ensures r > 0
  {
    if k == 0 then 1 else 256 * Pow256(k - 1)
  }

  lemma Reassociate(a: nat, p: nat, q: nat)
    ensures (a * p) * q == a * (p * q)
  {
  }

  lemma QuotientTwice(n: nat, p: nat)
    requires p > 0
    ensures n / (256 * p) == n / 256 / p
  {
    var q := n / 256 / p;
    var r := n / 256 % p;
    assert n / 256 == p * q + r;
    Reassociate(256, p, q);
    assert n == (256 * p) * q + (256 * r + n % 256);
    QuotientUnique(n, 256 * p, q, 256 * r + n % 256);
  }

  lemma QuotientUnique(n: nat, d: nat, q: nat, r: nat)
    requires d > 0 && n == d * q + r && r < d
    ensures n / d == q
  {
    var e := n / d - q;
    assert n == d * (n / d) + n % d;
    assert d * e == r - n % d;
    MultipleBelow(d, e);
  }

  lemma MultipleBelow(d: int, e: int)
    requires d > 0
    ensures -d < d * e < d ==> e == 0
  {
  }

  lemma ByteOfSame(n: nat, x: nat)
    ensures ByteOf(n + 256 * x) == ByteOf(n) && (n + 256 * x) / 256 == n / 256 + x
  {
    assert (n + 256 * x) % 256 == n % 256;
  }

  predicate Odd(b: Byte) {
    b & 1 != 0
  }

  function Half(b: Byte): Byte {
    b >> 1
  }

  /** The byte has no bit from the n-th on. */
  predicate HasBits(b: Byte, n: nat)
    decreases n
  {
    if n == 0 then b == 0 else HasBits(Half(b), n - 1)
  }

  datatype Option<+T> = None | Some(value: T)

  /** The concatenation of a sequence of chunks, in order. */
  function Flatten(chunks: seq<Bytes>): (r: Bytes) {
    if chunks == [] then [] else Flatten(chunks[..|chunks| - 1]) + chunks[|chunks| - 1]
  }

  // ---------------------------------------------------------------------------------------------
  // Numbers below 256 and bytes

  function Halved(n: nat): nat {
    n / 2
  }

  function LowestBit(n: nat): nat {
    n % 2
  }

  lemma HalvedSplits(x: nat, n: nat)
    ensures x == LowestBit(x) + 2 * Halved(x)
    ensures x < 2 * n ==> Halved(x) < n
  {
  }

  lemma EightHalvings(x: nat)
    requires x < 256
    ensures var h := Halved(Halved(Halved(Halved(x))));
            x == LowestBit(x) + 2 * LowestBit(Halved(x)) + 4 * LowestBit(Halved(Halved(x)))
                 + 8 * LowestBit(Halved(Halved(Halved(x)))) + 16 * LowestBit(h) + 32 * LowestBit(Halved(h))
                 + 64 * LowestBit(Halved(Halved(h))) + 128 * LowestBit(Halved(Halved(Halved(h))))
  {
    hide Halved, LowestBit;
    var a, b, c := Halved(x), Halved(Halved(x)), Halved(Halved(Halved(x)));
    var d, e, f := Halved(c), Halved(Halved(c)), Halved(Halved(Halved(c)));
    HalvedSplits(x, 128);
    HalvedSplits(a, 64);
    HalvedSplits(b, 32);
    HalvedSplits(c, 16);
    HalvedSplits(d, 8);
    HalvedSplits(e, 4);
    HalvedSplits(f, 2);
    HalvedSplits(Halved(f), 1);
  }

  lemma HalvingsAreQuotients(x: nat)
    ensures x / 4 == Halved(Halved(x)) && x / 8 == Halved(Halved(Halved(x)))
    ensures x / 16 == Halved(Halved(Halved(Halved(x))))
  {
  }

  lemma LowBits(x: nat)
    ensures x % 2 == LowestBit(x) && x / 2 % 2 == LowestBit(Halved(x))
    ensures x / 4 % 2 == LowestBit(Halved(Halved(x))) && x / 8 % 2 == LowestBit(Halved(Halved(Halved(x))))
  {
    HalvingsAreQuotients(x);
  }

  lemma HighBits(x: nat)
    ensures var h := Halved(Halved(Halved(Halved(x))));
            && x / 16 % 2 == LowestBit(h) && x / 32 % 2 == LowestBit(Halved(h))
            && x / 64 % 2 == LowestBit(Halved(Halved(h))) && x / 128 % 2 == LowestBit(Halved(Halved(Halved(h))))
  {
    HalvingsAreQuotients(x);
    HalvingsAreQuotients(x / 16);
    assert x / 16 / 2 == x / 32 && x / 16 / 4 == x / 64 && x / 16 / 8 == x / 128;
  }

  lemma BinaryDigits(x: nat)
    requires x < 256
    ensures x == x % 2 + 2 * (x / 2 % 2) + 4 * (x / 4 % 2) + 8 * (x / 8 % 2)
                 + 16 * (x / 16 % 2) + 32 * (x / 32 % 2) + 64 * (x / 64 % 2) + 128 * (x / 128 % 2)
  {
    hide Halved, LowestBit;
    EightHalvings(x);
    LowBits(x);
    HighBits(x);
  }

  lemma DigitsOfByte(x: nat)
    requires x < 256
    ensures (x as Byte) as nat
         == x % 2 + 2 * (x / 2 % 2) + 4 * (x / 4 % 2) + 8 * (x / 8 % 2)
            + 16 * (x / 16 % 2) + 32 * (x / 32 % 2) + 64 * (x / 64 % 2) + 128 * (x / 128 % 2)
  {
  }

  /** A byte holds the number it was made from. */
  lemma NumberOfByte(x: nat)
    requires x < 256
    ensures (x as Byte) as nat == x
  {
    DigitsOfByte(x);
    BinaryDigits(x);
  }
}
