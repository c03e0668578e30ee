/** Where the transformations of algo/aes.cxx move which byte, in the terms of sections 5.1.2 to 5.1.4 of FIPS 197: row r
    and column c of the state is element 4 * r + c. */
module AesPositions {
  import opened Bytes
  import opened Gf256
  import opened AesTables
  import opened AesCipher
  import opened AesKey

  /** Row r is rotated to the left by r, and back to the right by the inverse. */
  lemma ShiftRowsAt(s: Block, r: nat, c: nat)
    requires r < 4 && c < 4
    ensures ShiftRowsOf(s)[4 * r + c] == s[4 * r + (c + r) % 4]
    ensures InvShiftRowsOf(s)[4 * r + (c + r) % 4] == s[4 * r + c]
  {
    match r {
      case 0 => case 1 => case 2 => case _ =>
    }
  }

  /** Column c takes in bytes 4c to 4c + 3 of the round key. */
  lemma RoundKeyAt(s: Block, w: Bytes, off: nat, r: nat, c: nat)
    requires r < 4 && c < 4 && off + 16 <= |w|
    ensures AddRoundKeyOf(s, w, off)[4 * r + c] == Xor(s[4 * r + c], w[off + 4 * c + r])
  {
    hide Xor;
    assert (4 * r + c) / 4 == r && (4 * r + c) % 4 == c;
  }

  /** Input bytes fill the state column by column, and leave it in the same way. */
  lemma TransposedAt(s: Block, r: nat, c: nat)
    requires r < 4 && c < 4
    ensures Transposed(s)[4 * r + c] == s[4 * c + r]
  {
    assert (4 * r + c) / 4 == r && (4 * r + c) % 4 == c;
  }

  // ---------------------------------------------------------------------------------------------
  // Columns as polynomials modulo x^4 + 1

  /** The coefficient of x^i. */
  function Coeff(p: Word, i: nat): Byte {
    match i % 4
    case 0 => p.b0 case 1 => p.b1 case 2 => p.b2 case _ => p.b3
  }

  /** What the first n coefficients of a add to coefficient k of a * b: x^i times x^(k - i), and x^4 is 1. */
  function Product(a: Word, b: Word, k: nat, n: nat): Byte
    requires n <= 4
    decreases n
  {
    if n == 0 then 0 else Xor(Product(a, b, k, n - 1), Mul(Coeff(a, n - 1), Coeff(b, k + 4 - (n - 1))))
  }

  /** MixColumns multiplies a column by the polynomial 03 x^3 + 01 x^2 + 01 x + 02. */
  lemma MixWordMultiplies(s: Word, k: nat)
    requires k < 4
    ensures Coeff(MixWord(s), k) == Product(Word(2, 1, 1, 3), s, k, 4)
  {
    hide Mul, Xor, Xor4, Product, Coeff, MixWord;
    ProductUnfold(Word(2, 1, 1, 3), s, k);
    var b0, b1, b2, b3 := Coeff(s, k + 4), Coeff(s, k + 1), Coeff(s, k + 2), Coeff(s, k + 3);
    MulOne(b2);
    MulOne(b3);
    FourTerms(Mul(2, b0), b3, b2, Mul(3, b1));
    MixCoeff(s, k);
  }

  /** The order in which the source adds the terms depends on the row. */
  lemma MixCoeff(s: Word, k: nat)
    requires k < 4
    ensures var b0, b1, b2, b3 := Coeff(s, k + 4), Coeff(s, k + 1), Coeff(s, k + 2), Coeff(s, k + 3);
            Coeff(MixWord(s), k)
              == if k == 0 then Xor4(Mul(2, b0), Mul(3, b1), b2, b3)
                 else if k == 1 then Xor4(b3, Mul(2, b0), Mul(3, b1), b2)
                 else if k == 2 then Xor4(b2, b3, Mul(2, b0), Mul(3, b1))
                 else Xor4(Mul(3, b1), b2, b3, Mul(2, b0))
  {
    hide Mul, Xor, Xor4;
  }

  /** Its inverse multiplies by 0b x^3 + 0d x^2 + 09 x + 0e. */
  lemma InvMixWordMultiplies(s: Word, k: nat)
    requires k < 4
    ensures Coeff(InvMixWord(s), k) == Product(Word(0x0e, 0x09, 0x0d, 0x0b), s, k, 4)
  {
    hide Mul, Xor, Xor4, Product, Coeff, InvMixWord;
    ProductUnfold(Word(0x0e, 0x09, 0x0d, 0x0b), s, k);
    var b0, b1, b2, b3 := Coeff(s, k + 4), Coeff(s, k + 1), Coeff(s, k + 2), Coeff(s, k + 3);
    FourTerms(Mul(0x0e, b0), Mul(0x09, b3), Mul(0x0d, b2), Mul(0x0b, b1));
    InvMixCoeff(s, k);
  }

  lemma InvMixCoeff(s: Word, k: nat)
    requires k < 4
    ensures var p0, p1, p2, p3 := Mul(0x0e, Coeff(s, k + 4)), Mul(0x0b, Coeff(s, k + 1)), Mul(0x0d, Coeff(s, k + 2)),
                                  Mul(0x09, Coeff(s, k + 3));
            Coeff(InvMixWord(s), k)
              == if k == 0 then Xor4(p0, p1, p2, p3) else if k == 1 then Xor4(p3, p0, p1, p2)
                 else if k == 2 then Xor4(p2, p3, p0, p1) else Xor4(p1, p2, p3, p0)
  {
    hide Mul, Xor, Xor4;
  }

  lemma ProductUnfold(a: Word, b: Word, k: nat)
    requires k < 4
    ensures Product(a, b, k, 4)
         == Xor4(Mul(a.b0, Coeff(b, k + 4)), Mul(a.b1, Coeff(b, k + 3)),
                 Mul(a.b2, Coeff(b, k + 2)), Mul(a.b3, Coeff(b, k + 1)))
  {
    hide Mul, Xor, Coeff;
    XorLaws(0, Mul(a.b0, Coeff(b, k + 4)), 0);
    XorLaws(Mul(a.b0, Coeff(b, k + 4)), 0, 0);
    assert Coeff(a, 0) == a.b0 && Coeff(a, 1) == a.b1 && Coeff(a, 2) == a.b2 && Coeff(a, 3) == a.b3 by {
      FourCoeffs(a);
    }
    assert Product(a, b, k, 1) == Xor(0, Mul(Coeff(a, 0), Coeff(b, k + 4)));
    assert Product(a, b, k, 2) == Xor(Product(a, b, k, 1), Mul(Coeff(a, 1), Coeff(b, k + 3)));
    assert Product(a, b, k, 3) == Xor(Product(a, b, k, 2), Mul(Coeff(a, 2), Coeff(b, k + 2)));
  }

  lemma FourCoeffs(a: Word)
    ensures Coeff(a, 0) == a.b0 && Coeff(a, 1) == a.b1 && Coeff(a, 2) == a.b2 && Coeff(a, 3) == a.b3
  {
  }

  lemma Xor4Swaps(p: Byte, q: Byte, r: Byte, t: Byte)
    ensures Xor4(p, q, r, t) == Xor4(q, p, r, t)
    ensures Xor4(p, q, r, t) == Xor4(p, r, q, t)
    ensures Xor4(p, q, r, t) == Xor4(p, q, t, r)
  {
    hide Xor;
    XorLaws(p, q, 0);
    XorLaws(p, q, r);
    XorLaws(p, r, q);
    XorLaws(q, r, 0);
    XorLaws(Xor(p, q), r, t);
    XorLaws(Xor(p, q), t, r);
    XorLaws(r, t, 0);
  }

  /** The four orders in which the source adds the terms of a coefficient. */
  lemma FourTerms(p: Byte, q: Byte, r: Byte, t: Byte)
    ensures Xor4(p, t, r, q) == Xor4(p, q, r, t) && Xor4(q, p, t, r) == Xor4(p, q, r, t)
    ensures Xor4(r, q, p, t) == Xor4(p, q, r, t) && Xor4(t, r, q, p) == Xor4(p, q, r, t)
  {
    hide Xor4;
    Xor4Swaps(p, q, r, t);
    Xor4Swaps(p, r, q, t);
    Xor4Swaps(p, r, t, q);
    Xor4Swaps(q, p, r, t);
    Xor4Swaps(q, r, p, t);
    Xor4Swaps(t, p, r, q);
    Xor4Swaps(t, r, p, q);
  }

  // ---------------------------------------------------------------------------------------------
  // Rounds

  /** Column c of a full round: the polynomial product of four substituted bytes along a diagonal, and a key word. */
  lemma ColumnOfRound(s: Block, w: Bytes, n: nat, c: nat)
    requires n > 0 && c < 4 && 16 * (n + 1) <= |w|
    ensures var p := Rounds(s, w, n - 1);
            Column(Rounds(s, w, n), c) ==
              Sum(MixWord(Word(Sbox(p[c]), Sbox(p[4 + (c + 1) % 4]), Sbox(p[8 + (c + 2) % 4]), Sbox(p[12 + (c + 3) % 4]))),
                  WordAt(w, 16 * n + 4 * c))
  {
    hide Sbox, MixWord, Rounds, ShiftRowsOf, AddRoundKeyOf, Xor;
    var p := Rounds(s, w, n - 1);
    RoundsStep(s, w, n - 1);
    var q := ShiftRowsOf(SubBytesOf(p));
    DiagonalOf(p, c);
    ColumnsMixed(q, c);
    KeyedColumn(MixColumnsOf(q), w, 16 * n, c);
  }

  lemma DiagonalOf(p: Block, c: nat)
    requires c < 4
    ensures Column(ShiftRowsOf(SubBytesOf(p)), c)
         == Word(Sbox(p[c]), Sbox(p[4 + (c + 1) % 4]), Sbox(p[8 + (c + 2) % 4]), Sbox(p[12 + (c + 3) % 4]))
  {
    hide Sbox, ShiftRowsOf;
    ShiftRowsAt(SubBytesOf(p), 0, c);
    ShiftRowsAt(SubBytesOf(p), 1, c);
    ShiftRowsAt(SubBytesOf(p), 2, c);
    ShiftRowsAt(SubBytesOf(p), 3, c);
  }

  lemma ColumnsMixed(q: Block, c: nat)
    requires c < 4
    ensures Column(MixColumnsOf(q), c) == MixWord(Column(q, c))
  {
    hide MixWord;
  }

  lemma KeyedColumn(q: Block, w: Bytes, off: nat, c: nat)
    requires c < 4 && off + 16 <= |w|
    ensures Column(AddRoundKeyOf(q, w, off), c) == Sum(Column(q, c), WordAt(w, off + 4 * c))
  {
    hide AddRoundKeyOf, Xor;
    RoundKeyAt(q, w, off, 0, c);
    RoundKeyAt(q, w, off, 1, c);
    RoundKeyAt(q, w, off, 2, c);
    RoundKeyAt(q, w, off, 3, c);
  }

  /** The first key is added to the bare state, and the last round has no MixColumns. */
  lemma FirstAndLast(s: Block, w: Bytes, nr: nat, c: nat)
    requires nr > 0 && c < 4 && 16 * (nr + 1) <= |w|
    ensures Column(Rounds(s, w, 0), c) == Sum(Column(s, c), WordAt(w, 4 * c))
    ensures var p := Rounds(s, w, nr - 1);
            Column(AllRounds(s, w, nr), c) ==
              Sum(Word(Sbox(p[c]), Sbox(p[4 + (c + 1) % 4]), Sbox(p[8 + (c + 2) % 4]), Sbox(p[12 + (c + 3) % 4])),
                  WordAt(w, 16 * nr + 4 * c))
  {
    hide Sbox, Rounds, ShiftRowsOf, AddRoundKeyOf, Xor;
    RoundsEnd(s, w);
    KeyedColumn(s, w, 0, c);
    DiagonalOf(Rounds(s, w, nr - 1), c);
    KeyedColumn(ShiftRowsOf(SubBytesOf(Rounds(s, w, nr - 1))), w, 16 * nr, c);
  }

  // ---------------------------------------------------------------------------------------------
  // The expanded key

  /** The expanded key byte by byte: first the key, then each byte the sum of the one nk words before it and of a byte of
      the word before it, which is substituted, and at the start of every nk words rotated and given a power of x. */
  lemma ExpandedKeyBytes(key: Bytes, nk: nat, n: nat, i: nat, r: nat)
    requires nk in {4, 6, 8} && |key| == 4 * nk && i < n && r < 4
    ensures var w := ExpandedKey(key, nk, n);
            && (i < nk ==> w[4 * i + r] == key[4 * i + r])
            && (i >= nk ==>
                  w[4 * i + r]
                    == Xor(w[4 * (i - nk) + r],
                           if i % nk == 0 then
                             Xor(Sbox(w[4 * (i - 1) + (r + 1) % 4]), if r == 0 then XTimes(1, i / nk - 1) else 0)
                           else if nk == 8 && i % 8 == 4 then Sbox(w[4 * (i - 1) + r])
                           else w[4 * (i - 1) + r]))
  {
    hide Sbox, XTimes, ExpandedKey, KeyWord, Twisted, Sum, Coeff, WordAt, Xor;
    var w := ExpandedKey(key, nk, n);
    ExpandedKeyAt(key, nk, n, i);
    KeyWordUnfold(key, nk, i);
    ByteOfWord(w, 4 * i, r);
    if i < nk {
      ByteOfWord(key, 4 * i, r);
    } else {
      ExpandedKeyAt(key, nk, n, i - nk);
      ExpandedKeyAt(key, nk, n, i - 1);
      var x := WordAt(w, 4 * (i - 1));
      SumCoeff(WordAt(w, 4 * (i - nk)), Twisted(x, nk, i), r);
      TwistedCoeff(x, nk, i, r);
      ByteOfWord(w, 4 * (i - nk), r);
      ByteOfWord(w, 4 * (i - 1), r);
      ByteOfWord(w, 4 * (i - 1), (r + 1) % 4);
    }
  }

  lemma ByteOfWord(w: Bytes, off: nat, r: nat)
    requires off + 4 <= |w| && r < 4
    ensures w[off + r] == Coeff(WordAt(w, off), r)
  {
  }

  lemma SumCoeff(x: Word, y: Word, r: nat)
    requires r < 4
    ensures Coeff(Sum(x, y), r) == Xor(Coeff(x, r), Coeff(y, r))
  {
    hide Xor;
  }

  lemma TwistedCoeff(x: Word, nk: nat, i: nat, r: nat)
    requires nk in {4, 6, 8} && nk <= i && r < 4
    ensures i / nk > 0
    ensures Coeff(Twisted(x, nk, i), r)
         == if i % nk == 0 then Xor(Sbox(Coeff(x, (r + 1) % 4)), if r == 0 then XTimes(1, i / nk - 1) else 0)
            else if nk == 8 && i % 8 == 4 then Sbox(Coeff(x, r)) else Coeff(x, r)
  {
    hide Sbox, XTimes, Xor;
    DivPositive(i, nk);
  }

  lemma KeyWordUnfold(key: Bytes, nk: nat, i: nat)
    requires nk > 0 && |key| == 4 * nk
    ensures i < nk ==> KeyWord(key, nk, i) == WordAt(key, 4 * i)
    ensures i >= nk ==> KeyWord(key, nk, i) == Sum(KeyWord(key, nk, i - nk), Twisted(KeyWord(key, nk, i - 1), nk, i))
  {
    hide Sum, Twisted;
  }
}
