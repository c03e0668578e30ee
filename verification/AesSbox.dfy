/** What the table sbox of algo/aes.h stands for: section 5.1.1 of FIPS 197. */
module AesSbox {
  import opened Bytes
  import opened Gf256
  import opened AesTables

  /** The affine map over GF(2): bit i of the result is the sum of bits i, i + 4, i + 5, i + 6 and i + 7 of b, counted
      modulo 8, and of bit i of 0x63. */
  function Affine(b: Byte): Byte {
    b ^ ((b << 1) | (b >> 7)) ^ ((b << 2) | (b >> 6)) ^ ((b << 3) | (b >> 5)) ^ ((b << 4) | (b >> 4)) ^ 0x63
  }

  function AffineInverse(y: Byte): Byte {
    ((y << 1) | (y >> 7)) ^ ((y << 3) | (y >> 5)) ^ ((y << 6) | (y >> 2)) ^ 0x05
  }

  lemma AffineInverts(b: Byte)
    ensures Affine(AffineInverse(b)) == b && AffineInverse(Affine(b)) == b
  {
  }

  // ---------------------------------------------------------------------------------------------
  // The product written out

  function Masked(b: Byte, mask: Byte, a: Byte): Byte {
    If(b & mask != 0, a)
  }

  function Product(a: Byte, b: Byte): Byte {
    var c, d := XTime(XTime(a)), XTime(XTime(XTime(XTime(a))));
    var e := XTime(XTime(d));
    Xor(Masked(b, 0x01, a), Xor(Masked(b, 0x02, XTime(a)),
    Xor(Masked(b, 0x04, c), Xor(Masked(b, 0x08, XTime(c)),
    Xor(Masked(b, 0x10, d), Xor(Masked(b, 0x20, XTime(d)),
    Xor(Masked(b, 0x40, e), Xor(Masked(b, 0x80, XTime(e)), 0))))))))
  }

  lemma TwoTerms(a: Byte, b: Byte, n: nat)
    requires n >= 2
    ensures MulBits(a, b, n)
         == Xor(If(Odd(b), a), Xor(If(Odd(Half(b)), XTime(a)), MulBits(XTime(XTime(a)), Half(Half(b)), n - 2)))
  {
    hide Xor, If, Odd, Half, XTime;
    assert MulBits(XTime(a), Half(b), n - 1)
        == Xor(If(Odd(Half(b)), XTime(a)), MulBits(XTime(XTime(a)), Half(Half(b)), n - 2));
  }

  lemma NoTerms(a: Byte, b: Byte)
    ensures MulBits(a, b, 0) == 0
  {
  }

  lemma LowTerms(b: Byte, a: Byte, c: Byte, d: Byte, e: Byte)
    ensures If(Odd(b), a) == Masked(b, 0x01, a) && If(Odd(Half(b)), c) == Masked(b, 0x02, c)
    ensures If(Odd(Half(Half(b))), d) == Masked(b, 0x04, d) && If(Odd(Half(Half(Half(b)))), e) == Masked(b, 0x08, e)
  {
  }

  lemma HighTerms(b: Byte, a: Byte, c: Byte, d: Byte, e: Byte)
    ensures var h := Half(Half(Half(Half(b))));
            && If(Odd(h), a) == Masked(b, 0x10, a) && If(Odd(Half(h)), c) == Masked(b, 0x20, c)
            && If(Odd(Half(Half(h))), d) == Masked(b, 0x40, d) && If(Odd(Half(Half(Half(h)))), e) == Masked(b, 0x80, e)
  {
  }

  lemma MulIsProduct(a: Byte, b: Byte)
    ensures Mul(a, b) == Product(a, b)
  {
    hide Xor, If, Odd, Half, XTime, MulBits, Masked;
    var c, d := XTime(XTime(a)), XTime(XTime(XTime(XTime(a))));
    var e := XTime(XTime(d));
    var h := Half(Half(Half(Half(b))));
    TwoTerms(a, b, 8);
    TwoTerms(c, Half(Half(b)), 6);
    TwoTerms(d, h, 4);
    TwoTerms(e, Half(Half(h)), 2);
    NoTerms(XTime(XTime(e)), Half(Half(Half(Half(h)))));
    LowTerms(b, a, XTime(a), c, XTime(c));
    HighTerms(b, d, XTime(d), e, XTime(e));
  }

  // ---------------------------------------------------------------------------------------------
  // The table

  lemma LowInverses(t: Byte)
    requires 0 < t < 0x80
    ensures Product(t, AffineInverse(Sbox(t))) == 1
  {
    // one case per row of sixteen entries
    match t >> 4
    case 0 => case 1 => case 2 => case 3 => case 4 => case 5 => case 6 => case _ =>
  }

  lemma HighInverses(t: Byte)
    requires t >= 0x80
    ensures Product(t, AffineInverse(Sbox(t))) == 1
  {
    match t >> 4
    case 8 => case 9 => case 10 => case 11 => case 12 => case 13 => case 14 => case _ =>
  }

  /** Every byte but zero has an inverse in the field: what the affine map takes to its table entry. */
  lemma InverseExists(t: Byte)
    ensures t != 0 ==> Mul(t, AffineInverse(Sbox(t))) == 1
  {
    hide Sbox, AffineInverse, Mul, Product;
    MulIsProduct(t, AffineInverse(Sbox(t)));
    if 0 < t < 0x80 {
      LowInverses(t);
    } else if t >= 0x80 {
      HighInverses(t);
    }
  }

  lemma InverseUnique(t: Byte, b: Byte, c: Byte)
    requires Mul(t, b) == 1 && Mul(t, c) == 1
    ensures b == c
  {
    hide Mul;
    MulOne(b);
    MulOne(c);
    MulCommutes(t, b);
    MulCommutes(t, c);
    MulAssociates(b, t, c);
    MulCommutes(1, c);
  }

  lemma SboxOfZero()
    ensures Sbox(0) == Affine(0)
  {
  }

  /** The table is inversion in the field, zero going to itself, followed by the affine map. */
  lemma SboxIsAffineOfInverse(t: Byte, b: Byte)
    requires if t == 0 then b == 0 else Mul(t, b) == 1
    ensures Sbox(t) == Affine(b)
  {
    hide Sbox, Affine, AffineInverse, Mul;
    if t == 0 {
      SboxOfZero();
    } else {
      InverseExists(t);
      InverseUnique(t, b, AffineInverse(Sbox(t)));
      AffineInverts(Sbox(t));
    }
  }
}
