/** Arithmetic in GF(2^8) as algo/aes.cxx computes it: polynomials over GF(2) modulo x^8 + x^4 + x^3 + x + 1. */
module Gf256 {
  import opened Bytes

  /** Addition in the field.  Kept as a name of its own so that proofs can use its laws instead of its bits. */
  function Xor(a: Byte, b: Byte): Byte {
    a ^ b
  }

  lemma XorLaws(a: Byte, b: Byte, c: Byte)
    ensures Xor(a, b) == Xor(b, a)
    ensures Xor(Xor(a, b), c) == Xor(a, Xor(b, c))
    ensures Xor(a, a) == 0 && Xor(a, 0) == a
    ensures Xor(Xor(a, b), b) == a
  {
  }

  lemma XorSwap(a: Byte, b: Byte, c: Byte, d: Byte)
    ensures Xor(Xor(a, b), Xor(c, d)) == Xor(Xor(a, c), Xor(b, d))
  {
    hide Xor;
    XorLaws(a, b, Xor(c, d));
    XorLaws(b, c, d);
    XorLaws(c, b, d);
    XorLaws(a, c, Xor(b, d));
  }

  /** Multiplication by x. */
  function XTime(b: Byte): Byte {
    if b & 0x80 != 0 then (b << 1) ^ 0x1b else b << 1
  }

  function If(bit: bool, a: Byte): Byte {
    if bit then a else 0
  }

  /** The sum of a * x^i over the set bits i < n of b. */
  function MulBits(a: Byte, b: Byte, n: nat): Byte
    decreases n
  {
    if n == 0 then 0 else Xor(If(Odd(b), a), MulBits(XTime(a), Half(b), n - 1))
  }

  function Mul(a: Byte, b: Byte): Byte {
    MulBits(a, b, 8)
  }

  // XTime is linear

  lemma XTimeXor(a: Byte, b: Byte)
    ensures XTime(Xor(a, b)) == Xor(XTime(a), XTime(b))
  {
    TopBit(a);
    TopBit(b);
    XorParts(a, b);
    XorMovesOut(a << 1, b << 1, 0x1b);
  }

  lemma TopBit(a: Byte)
    ensures a & 0x80 == 0 || a & 0x80 == 0x80
  {
  }

  lemma XorParts(a: Byte, b: Byte)
    ensures (a ^ b) << 1 == (a << 1) ^ (b << 1) && (a ^ b) & 0x80 == (a & 0x80) ^ (b & 0x80)
  {
  }

  lemma XorMovesOut(a: Byte, b: Byte, p: Byte)
    ensures (a ^ p) ^ (b ^ p) == a ^ b && (a ^ p) ^ b == (a ^ b) ^ p && a ^ (b ^ p) == (a ^ b) ^ p
  {
  }

  lemma XTimeZero()
    ensures XTime(0) == 0
  {
  }

  lemma IfLaws(bit: bool, a: Byte, b: Byte)
    ensures If(bit, Xor(a, b)) == Xor(If(bit, a), If(bit, b))
    ensures If(bit, XTime(a)) == XTime(If(bit, a))
  {
    hide Xor;
    XorLaws(0, 0, 0);
    XTimeZero();
  }

  // MulBits is linear in a and commutes with multiplication by x

  lemma {:induction false} MulBitsXor(a: Byte, c: Byte, b: Byte, n: nat)
    ensures MulBits(Xor(a, c), b, n) == Xor(MulBits(a, b, n), MulBits(c, b, n))
    decreases n
  {
    hide Xor, XTime, If, Odd, Half;
    if n == 0 {
      XorLaws(0, 0, 0);
    } else {
      XTimeXor(a, c);
      IfLaws(Odd(b), a, c);
      MulBitsXor(XTime(a), XTime(c), Half(b), n - 1);
      XorSwap(If(Odd(b), a), If(Odd(b), c), MulBits(XTime(a), Half(b), n - 1), MulBits(XTime(c), Half(b), n - 1));
    }
  }

  lemma {:induction false} MulBitsXTime(a: Byte, b: Byte, n: nat)
    ensures MulBits(XTime(a), b, n) == XTime(MulBits(a, b, n))
    decreases n
  {
    hide Xor, XTime, If, Odd, Half;
    if n == 0 {
      XTimeZero();
    } else {
      IfLaws(Odd(b), a, 0);
      MulBitsXTime(XTime(a), Half(b), n - 1);
      XTimeXor(If(Odd(b), a), MulBits(XTime(a), Half(b), n - 1));
    }
  }

  // commutativity

  /** A byte is its low bit plus x times the rest. */
  lemma SplitOdd(b: Byte)
    ensures b == Xor(If(Odd(b), 1), XTime(Half(b)))
  {
  }

  /** Horner's rule on the first factor. */
  lemma MulBitsHorner(a: Byte, b: Byte, n: nat)
    ensures MulBits(a, b, n) == Xor(If(Odd(a), MulBits(1, b, n)), XTime(MulBits(Half(a), b, n)))
  {
    hide Xor, XTime, Odd, Half, MulBits;
    SplitOdd(a);
    MulBitsXor(If(Odd(a), 1), XTime(Half(a)), b, n);
    MulBitsXTime(Half(a), b, n);
    MulBitsZero(b, n);
  }

  lemma {:induction false} MulBitsZero(b: Byte, n: nat)
    ensures MulBits(0, b, n) == 0
    decreases n
  {
    hide Odd, Half;
    if n > 0 {
      MulBitsZero(Half(b), n - 1);
    }
  }

  lemma {:induction false} MulBitsOne(b: Byte, n: nat)
    requires HasBits(b, n)
    ensures MulBits(1, b, n) == b
    decreases n
  {
    hide Xor, XTime, Odd, Half;
    if n > 0 {
      MulBitsXTime(1, Half(b), n - 1);
      MulBitsOne(Half(b), n - 1);
      SplitOdd(b);
    }
  }

  lemma {:induction false} MulBitsCommute(a: Byte, b: Byte, n: nat)
    requires HasBits(a, n) && HasBits(b, 8)
    ensures MulBits(a, b, 8) == MulBits(b, a, n)
    decreases n
  {
    hide Xor, XTime, Odd, Half;
    if n == 0 {
      MulBitsZero(b, 8);
    } else {
      MulBitsHorner(a, b, 8);
      MulBitsOne(b, 8);
      MulBitsCommute(Half(a), b, n - 1);
      MulBitsXTime(b, Half(a), n - 1);
    }
  }

  lemma Fits8(a: Byte)
    ensures HasBits(a, 8)
  {
  }

  lemma MulCommutes(a: Byte, b: Byte)
    ensures Mul(a, b) == Mul(b, a)
  {
    hide Xor, XTime, Odd, Half, MulBits, HasBits;
    Fits8(a);
    Fits8(b);
    MulBitsCommute(a, b, 8);
  }

  lemma MulOne(a: Byte)
    ensures Mul(1, a) == a && Mul(a, 1) == a
  {
    hide Xor, XTime, Odd, Half, MulBits, HasBits, Mul;
    Fits8(a);
    assert Mul(1, a) == a by { Fits8(a); MulOneLeft(a); }
    MulCommutes(1, a);
  }

  lemma MulOneLeft(a: Byte)
    ensures Mul(1, a) == a
  {
    hide MulBits, HasBits;
    Fits8(a);
    MulBitsOne(a, 8);
  }

  lemma MulZero(a: Byte)
    ensures Mul(0, a) == 0 && Mul(a, 0) == 0
  {
    hide MulBits;
    MulBitsZero(a, 8);
    MulCommutes(0, a);
  }

  lemma MulDistributes(a: Byte, b: Byte, c: Byte)
    ensures Mul(Xor(a, b), c) == Xor(Mul(a, c), Mul(b, c))
    ensures Mul(c, Xor(a, b)) == Xor(Mul(c, a), Mul(c, b))
  {
    hide MulBits, Xor;
    MulBitsXor(a, b, c, 8);
    MulCommutes(a, c);
    MulCommutes(b, c);
    MulCommutes(Xor(a, b), c);
  }

  lemma MulXTime(a: Byte, b: Byte)
    ensures Mul(XTime(a), b) == XTime(Mul(a, b)) && Mul(a, XTime(b)) == XTime(Mul(a, b))
  {
    hide MulBits, XTime;
    MulBitsXTime(a, b, 8);
    MulBitsXTime(b, a, 8);
    MulCommutes(a, b);
    MulCommutes(a, XTime(b));
  }

  // associativity

  lemma {:induction false} MulBitsAssociate(a: Byte, b: Byte, c: Byte, n: nat)
    ensures Mul(a, MulBits(b, c, n)) == MulBits(Mul(a, b), c, n)
    decreases n
  {
    hide Xor, XTime, Odd, Half, Mul;
    if n == 0 {
      MulZero(a);
    } else {
      MulBitsAssociate(a, XTime(b), Half(c), n - 1);
      MulXTime(a, b);
      MulDistributes(If(Odd(c), b), MulBits(XTime(b), Half(c), n - 1), a);
      MulZero(a);
    }
  }

  lemma MulAssociates(a: Byte, b: Byte, c: Byte)
    ensures Mul(a, Mul(b, c)) == Mul(Mul(a, b), c)
  {
    hide MulBits;
    MulBitsAssociate(a, b, c, 8);
  }

  // the source's multiplication loop

  /** a multiplied by x, n times. */
  function XTimes(a: Byte, n: nat): Byte {
    if n == 0 then a else XTime(XTimes(a, n - 1))
  }

  method MulBytes(a: Byte, b0: Byte) returns (c: Byte)
    ensures c == Mul(a, b0)
  {
    hide Xor, XTime, Odd, Half, MulBits;
    c := 0;
    var b := b0;
    var i := 0;
    assert Xor(0, MulBits(a, b0, 8)) == MulBits(a, b0, 8) by {
      XorLaws(0, MulBits(a, b0, 8), 0);
      XorLaws(MulBits(a, b0, 8), 0, 0);
    }
    while i < 8
      invariant 0 <= i <= 8
      invariant Xor(c, MulBits(XTimes(a, i), b, 8 - i)) == Mul(a, b0)
    {
      MulBitsStep(XTimes(a, i), b, 8 - i, c);
      if Odd(b) {
        var d := a;
        var j := 0;
        while j < i
          invariant 0 <= j <= i
          invariant d == XTimes(a, j)
        {
          d := XTime(d);
          j := j + 1;
        }
        c := Xor(c, d);
      }
      b := Half(b);
      i := i + 1;
    }
    MulBitsEnd(XTimes(a, 8), b, c);
  }

  lemma MulBitsStep(a: Byte, b: Byte, n: nat, c: Byte)
    requires n > 0
    ensures Xor(c, MulBits(a, b, n)) == Xor(if Odd(b) then Xor(c, a) else c, MulBits(XTime(a), Half(b), n - 1))
  {
    hide Xor, XTime, Odd, Half;
    XorLaws(c, If(Odd(b), a), MulBits(XTime(a), Half(b), n - 1));
    XorLaws(c, c, c);
  }

  lemma MulBitsEnd(a: Byte, b: Byte, c: Byte)
    ensures Xor(c, MulBits(a, b, 0)) == c
  {
    hide Xor;
    XorLaws(c, c, c);
  }
}
