/** The AES cipher of algo/aes.cxx as functions on states, and the proof that decryption undoes encryption.

    A state is sixteen bytes; state[i][j] of the source (row i, column j) is element 4 * i + j. */
module AesCipher {
  import opened Bytes
  import opened Gf256
  import opened AesTables

  type Block = s: Bytes | |s| == 16 witness seq(16, _ => 0 as Byte)

  /** A column of the state, or a word of the key schedule. */
  datatype Word = Word(b0: Byte, b1: Byte, b2: Byte, b3: Byte)

  // ---------------------------------------------------------------------------------------------
  // Round transformations

  function SubBytesOf(s: Block): Block {
    seq(16, k requires 0 <= k < 16 => Sbox(s[k]))
  }

  function InvSubBytesOf(s: Block): Block {
    seq(16, k requires 0 <= k < 16 => InvSbox(s[k]))
  }

  /** Row i rotated left by n positions. */
  function RotateRow(s: Block, i: nat, n: nat): Block {
    seq(16, k requires 0 <= k < 16 => if k / 4 == i then s[4 * i + (k % 4 + n) % 4] else s[k])
  }

  function ShiftRowsOf(s: Block): Block {
    RotateRow(RotateRow(RotateRow(s, 1, 1), 2, 2), 3, 3)
  }

  function InvShiftRowsOf(s: Block): Block {
    RotateRow(RotateRow(RotateRow(s, 1, 3), 2, 2), 3, 1)
  }

  function Column(s: Block, j: nat): Word
    requires j < 4
  {
    Word(s[j], s[4 + j], s[8 + j], s[12 + j])
  }

  function FromColumns(c0: Word, c1: Word, c2: Word, c3: Word): Block {
    [c0.b0, c1.b0, c2.b0, c3.b0, c0.b1, c1.b1, c2.b1, c3.b1,
     c0.b2, c1.b2, c2.b2, c3.b2, c0.b3, c1.b3, c2.b3, c3.b3]
  }

  /** The xor of four terms, associated as the source's expressions are. */
  function Xor4(a: Byte, b: Byte, c: Byte, d: Byte): Byte {
    Xor(Xor(Xor(a, b), c), d)
  }

  function MixWord(s: Word): Word {
    Word(Xor4(Mul(2, s.b0), Mul(3, s.b1), s.b2, s.b3),
         Xor4(s.b0, Mul(2, s.b1), Mul(3, s.b2), s.b3),
         Xor4(s.b0, s.b1, Mul(2, s.b2), Mul(3, s.b3)),
         Xor4(Mul(3, s.b0), s.b1, s.b2, Mul(2, s.b3)))
  }

  function InvMixWord(s: Word): Word {
    Word(Dot(Word(0x0e, 0x0b, 0x0d, 0x09), s),
         Dot(Word(0x09, 0x0e, 0x0b, 0x0d), s),
         Dot(Word(0x0d, 0x09, 0x0e, 0x0b), s),
         Dot(Word(0x0b, 0x0d, 0x09, 0x0e), s))
  }

  function MixColumnsOf(s: Block): Block {
    FromColumns(MixWord(Column(s, 0)), MixWord(Column(s, 1)), MixWord(Column(s, 2)), MixWord(Column(s, 3)))
  }

  function InvMixColumnsOf(s: Block): Block {
    FromColumns(InvMixWord(Column(s, 0)), InvMixWord(Column(s, 1)), InvMixWord(Column(s, 2)), InvMixWord(Column(s, 3)))
  }

  /** The sixteen key bytes at offset off enter the state column by column. */
  function AddRoundKeyOf(s: Block, w: Bytes, off: nat): Block
    requires off + 16 <= |w|
  {
    seq(16, k requires 0 <= k < 16 => Xor(s[k], w[off + k / 4 + 4 * (k % 4)]))
  }

  /** Input byte i + 4j goes to row i, column j; the same permutation takes it back. */
  function Transposed(s: Block): Block {
    seq(16, k requires 0 <= k < 16 => s[k / 4 + 4 * (k % 4)])
  }

  // ---------------------------------------------------------------------------------------------
  // The cipher over an expanded key w of nr + 1 round keys

  /** The state after the initial key and r full rounds. */
  function Rounds(s: Block, w: Bytes, r: nat): Block
    requires 16 * (r + 1) <= |w|
    decreases r
  {
    if r == 0 then AddRoundKeyOf(s, w, 0)
    else AddRoundKeyOf(MixColumnsOf(ShiftRowsOf(SubBytesOf(Rounds(s, w, r - 1)))), w, 16 * r)
  }

  /** All rounds, the last one without MixColumns. */
  function AllRounds(s: Block, w: Bytes, nr: nat): Block
    requires nr > 0 && 16 * (nr + 1) <= |w|
  {
    AddRoundKeyOf(ShiftRowsOf(SubBytesOf(Rounds(s, w, nr - 1))), w, 16 * nr)
  }

  function Cipher(inp: Block, w: Bytes, nr: nat): Block
    requires nr > 0 && 16 * (nr + 1) <= |w|
  {
    Transposed(AllRounds(Transposed(inp), w, nr))
  }

  /** One full inverse round, in the source's order of the four transformations. */
  function InvRound(s: Block, w: Bytes, r: nat): Block
    requires 16 * (r + 1) <= |w|
  {
    InvMixColumnsOf(AddRoundKeyOf(InvShiftRowsOf(InvSubBytesOf(s)), w, 16 * r))
  }

  /** Inverse rounds r, r - 1, ..., 1. */
  function InvRounds(s: Block, w: Bytes, r: nat): Block
    requires 16 * (r + 1) <= |w|
    decreases r
  {
    if r == 0 then s else InvRounds(InvRound(s, w, r), w, r - 1)
  }

  function AllInvRounds(s: Block, w: Bytes, nr: nat): Block
    requires nr > 0 && 16 * (nr + 1) <= |w|
  {
    AddRoundKeyOf(InvShiftRowsOf(InvSubBytesOf(InvRounds(AddRoundKeyOf(s, w, 16 * nr), w, nr - 1))), w, 0)
  }

  function InvCipher(inp: Block, w: Bytes, nr: nat): Block
    requires nr > 0 && 16 * (nr + 1) <= |w|
  {
    Transposed(AllInvRounds(Transposed(inp), w, nr))
  }

  lemma InvRoundsStep(s: Block, w: Bytes, r: nat)
    requires r > 0 && 16 * (r + 1) <= |w|
    ensures InvRounds(s, w, r)
         == InvRounds(InvMixColumnsOf(AddRoundKeyOf(InvShiftRowsOf(InvSubBytesOf(s)), w, 16 * r)), w, r - 1)
  {
    hide InvMixColumnsOf, AddRoundKeyOf, InvShiftRowsOf, InvSubBytesOf;
  }

  lemma RoundsStep(s: Block, w: Bytes, r: nat)
    requires 16 * (r + 2) <= |w|
    ensures Rounds(s, w, r + 1) == AddRoundKeyOf(MixColumnsOf(ShiftRowsOf(SubBytesOf(Rounds(s, w, r)))), w, 16 * (r + 1))
  {
    hide MixColumnsOf, AddRoundKeyOf, ShiftRowsOf, SubBytesOf;
  }

  lemma RoundsEnd(s: Block, w: Bytes)
    requires 16 <= |w|
    ensures Rounds(s, w, 0) == AddRoundKeyOf(s, w, 0) && InvRounds(s, w, 0) == s
  {
    hide AddRoundKeyOf;
  }

  // ---------------------------------------------------------------------------------------------
  // Matrices over GF(2^8)

  function Dot(k: Word, x: Word): Byte {
    Xor4(Mul(k.b0, x.b0), Mul(k.b1, x.b1), Mul(k.b2, x.b2), Mul(k.b3, x.b3))
  }

  function Sum(x: Word, y: Word): Word {
    Word(Xor(x.b0, y.b0), Xor(x.b1, y.b1), Xor(x.b2, y.b2), Xor(x.b3, y.b3))
  }

  function Scaled(x: Word, c: Byte): Word {
    Word(Mul(x.b0, c), Mul(x.b1, c), Mul(x.b2, c), Mul(x.b3, c))
  }

  lemma Xor4Sum(a: Byte, b: Byte, c: Byte, d: Byte, e: Byte, f: Byte, g: Byte, h: Byte)
    ensures Xor4(Xor(a, e), Xor(b, f), Xor(c, g), Xor(d, h)) == Xor(Xor4(a, b, c, d), Xor4(e, f, g, h))
  {
    hide Xor;
    XorSwap(a, e, b, f);
    XorSwap(Xor(a, b), Xor(e, f), c, g);
    XorSwap(Xor(Xor(a, b), c), Xor(Xor(e, f), g), d, h);
  }

  lemma DotSum(k: Word, x: Word, y: Word)
    ensures Dot(k, Sum(x, y)) == Xor(Dot(k, x), Dot(k, y))
  {
    hide Xor, Mul, Xor4;
    MulDistributes(x.b0, y.b0, k.b0);
    MulDistributes(x.b1, y.b1, k.b1);
    MulDistributes(x.b2, y.b2, k.b2);
    MulDistributes(x.b3, y.b3, k.b3);
    Xor4Sum(Mul(k.b0, x.b0), Mul(k.b1, x.b1), Mul(k.b2, x.b2), Mul(k.b3, x.b3),
            Mul(k.b0, y.b0), Mul(k.b1, y.b1), Mul(k.b2, y.b2), Mul(k.b3, y.b3));
  }

  lemma DotScaled(k: Word, x: Word, c: Byte)
    ensures Dot(k, Scaled(x, c)) == Mul(Dot(k, x), c)
  {
    hide Xor, Mul;
    MulAssociates(k.b0, x.b0, c);
    MulAssociates(k.b1, x.b1, c);
    MulAssociates(k.b2, x.b2, c);
    MulAssociates(k.b3, x.b3, c);
    var p0, p1, p2, p3 := Mul(k.b0, x.b0), Mul(k.b1, x.b1), Mul(k.b2, x.b2), Mul(k.b3, x.b3);
    MulDistributes(p0, p1, c);
    MulDistributes(Xor(p0, p1), p2, c);
    MulDistributes(Xor(Xor(p0, p1), p2), p3, c);
  }

  // the columns of the MixColumns matrix

  const MIX0 := Word(2, 1, 1, 3)
  const MIX1 := Word(3, 2, 1, 1)
  const MIX2 := Word(1, 3, 2, 1)
  const MIX3 := Word(1, 1, 3, 2)

  lemma MixWordIsMatrix(s: Word)
    ensures MixWord(s) == Sum(Sum(Sum(Scaled(MIX0, s.b0), Scaled(MIX1, s.b1)), Scaled(MIX2, s.b2)), Scaled(MIX3, s.b3))
  {
    hide Xor, Mul;
    MulOne(s.b0);
    MulOne(s.b1);
    MulOne(s.b2);
    MulOne(s.b3);
  }

  lemma DotMixWord(k: Word, s: Word)
    ensures Dot(k, MixWord(s))
         == Xor4(Mul(Dot(k, MIX0), s.b0), Mul(Dot(k, MIX1), s.b1), Mul(Dot(k, MIX2), s.b2), Mul(Dot(k, MIX3), s.b3))
  {
    hide Xor, Mul, Dot, Sum, Scaled, MixWord;
    var x0, x1, x2, x3 := Scaled(MIX0, s.b0), Scaled(MIX1, s.b1), Scaled(MIX2, s.b2), Scaled(MIX3, s.b3);
    MixWordIsMatrix(s);
    DotSum(k, Sum(Sum(x0, x1), x2), x3);
    DotSum(k, Sum(x0, x1), x2);
    DotSum(k, x0, x1);
    DotScaled(k, MIX0, s.b0);
    DotScaled(k, MIX1, s.b1);
    DotScaled(k, MIX2, s.b2);
    DotScaled(k, MIX3, s.b3);
  }

  /** Multiplication by 2 is one shift with reduction, by 3 that plus the byte itself. */
  lemma TimesTwoThree(a: Byte)
    ensures Mul(a, 1) == a && Mul(a, 2) == XTime(a) && Mul(a, 3) == Xor(XTime(a), a)
  {
    hide Mul;
    MulOne(a);
    assert XTime(1) == 2 && Xor(2, 1) == 3;
    MulXTime(a, 1);
    MulDistributes(2, 1, a);
  }

  lemma SmallMultiples()
    ensures Mul(0x0e, 1) == 0x0e && Mul(0x0e, 2) == 0x1c && Mul(0x0e, 3) == 0x12
    ensures Mul(0x0b, 1) == 0x0b && Mul(0x0b, 2) == 0x16 && Mul(0x0b, 3) == 0x1d
    ensures Mul(0x0d, 1) == 0x0d && Mul(0x0d, 2) == 0x1a && Mul(0x0d, 3) == 0x17
    ensures Mul(0x09, 1) == 0x09 && Mul(0x09, 2) == 0x12 && Mul(0x09, 3) == 0x1b
  {
    hide Mul;
    TimesTwoThree(0x0e);
    TimesTwoThree(0x0b);
    TimesTwoThree(0x0d);
    TimesTwoThree(0x09);
  }

  /** Row by row, the product of the two circulant matrices is the identity. */
  lemma MatrixRow0()
    ensures var k := Word(0x0e, 0x0b, 0x0d, 0x09);
            Dot(k, MIX0) == 1 && Dot(k, MIX1) == 0 && Dot(k, MIX2) == 0 && Dot(k, MIX3) == 0
  {
    hide Mul;
    SmallMultiples();
  }

  lemma MatrixRow1()
    ensures var k := Word(0x09, 0x0e, 0x0b, 0x0d);
            Dot(k, MIX0) == 0 && Dot(k, MIX1) == 1 && Dot(k, MIX2) == 0 && Dot(k, MIX3) == 0
  {
    hide Mul;
    SmallMultiples();
  }

  lemma MatrixRow2()
    ensures var k := Word(0x0d, 0x09, 0x0e, 0x0b);
            Dot(k, MIX0) == 0 && Dot(k, MIX1) == 0 && Dot(k, MIX2) == 1 && Dot(k, MIX3) == 0
  {
    hide Mul;
    SmallMultiples();
  }

  lemma MatrixRow3()
    ensures var k := Word(0x0b, 0x0d, 0x09, 0x0e);
            Dot(k, MIX0) == 0 && Dot(k, MIX1) == 0 && Dot(k, MIX2) == 0 && Dot(k, MIX3) == 1
  {
    hide Mul;
    SmallMultiples();
  }

  lemma InvMixWordInverts(s: Word)
    ensures InvMixWord(MixWord(s)) == s
  {
    hide Mul, Xor, Dot, MixWord;
    MatrixRow0();
    MatrixRow1();
    MatrixRow2();
    MatrixRow3();
    DotMixWord(Word(0x0e, 0x0b, 0x0d, 0x09), s);
    DotMixWord(Word(0x09, 0x0e, 0x0b, 0x0d), s);
    DotMixWord(Word(0x0d, 0x09, 0x0e, 0x0b), s);
    DotMixWord(Word(0x0b, 0x0d, 0x09, 0x0e), s);
    UnitTerms(s.b0);
    UnitTerms(s.b1);
    UnitTerms(s.b2);
    UnitTerms(s.b3);
  }

  lemma UnitTerms(a: Byte)
    ensures Mul(1, a) == a && Mul(0, a) == 0
    ensures Xor4(a, 0, 0, 0) == a && Xor4(0, a, 0, 0) == a && Xor4(0, 0, a, 0) == a && Xor4(0, 0, 0, a) == a
  {
    hide Mul, Xor;
    MulOne(a);
    MulZero(a);
    XorLaws(a, 0, 0);
    XorLaws(0, a, 0);
    XorLaws(0, 0, 0);
  }

  // ---------------------------------------------------------------------------------------------
  // Each transformation is undone by its inverse

  lemma InvMixColumnsInverts(s: Block)
    ensures InvMixColumnsOf(MixColumnsOf(s)) == s
  {
    hide MixWord, InvMixWord;
    InvMixWordInverts(Column(s, 0));
    InvMixWordInverts(Column(s, 1));
    InvMixWordInverts(Column(s, 2));
    InvMixWordInverts(Column(s, 3));
  }

  lemma RotateRowInverts(s: Block, i: nat, m: nat, n: nat)
    requires (m + n) % 4 == 0
    ensures RotateRow(RotateRow(s, i, m), i, n) == s
  {
    forall k | 0 <= k < 16
      ensures RotateRow(RotateRow(s, i, m), i, n)[k] == s[k]
    {
      RotateIndex(k % 4, m, n);
      assert k / 4 == i ==> k == 4 * i + k % 4;
    }
  }

  lemma RotateIndex(j: nat, m: nat, n: nat)
    requires j < 4 && (m + n) % 4 == 0
    ensures ((j + n) % 4 + m) % 4 == j
  {
  }

  lemma RotateRowsCommute(s: Block, i: nat, j: nat, m: nat, n: nat)
    requires i != j
    ensures RotateRow(RotateRow(s, i, m), j, n) == RotateRow(RotateRow(s, j, n), i, m)
  {
  }

  lemma InvShiftRowsInverts(s: Block)
    ensures InvShiftRowsOf(ShiftRowsOf(s)) == s
  {
    hide RotateRow;
    var a := RotateRow(s, 1, 1);
    var b := RotateRow(a, 2, 2);
    RotateRowsCommute(b, 3, 1, 3, 3);
    RotateRowsCommute(a, 2, 1, 2, 3);
    RotateRowInverts(s, 1, 1, 3);
    var d := RotateRow(s, 2, 2);
    RotateRowsCommute(d, 3, 2, 3, 2);
    RotateRowInverts(s, 2, 2, 2);
    RotateRowInverts(s, 3, 3, 1);
  }

  /** Substitution works byte by byte, so it commutes with moving bytes around. */
  lemma InvSubBytesAfterShift(s: Block)
    ensures InvSubBytesOf(ShiftRowsOf(SubBytesOf(s))) == ShiftRowsOf(s)
  {
    hide Sbox, InvSbox;
    forall k | 0 <= k < 16
      ensures InvSubBytesOf(ShiftRowsOf(SubBytesOf(s)))[k] == ShiftRowsOf(s)[k]
    {
      InvSboxInverts(ShiftRowsOf(s)[k]);
    }
  }

  lemma AddRoundKeyInverts(s: Block, w: Bytes, off: nat)
    requires off + 16 <= |w|
    ensures AddRoundKeyOf(AddRoundKeyOf(s, w, off), w, off) == s
  {
    hide Xor;
    forall k | 0 <= k < 16
      ensures AddRoundKeyOf(AddRoundKeyOf(s, w, off), w, off)[k] == s[k]
    {
      XorLaws(s[k], w[off + k / 4 + 4 * (k % 4)], 0);
    }
  }

  lemma TransposedTwice(s: Block)
    ensures Transposed(Transposed(s)) == s
  {
  }

  // ---------------------------------------------------------------------------------------------
  // The cipher

  lemma InvRoundInverts(s: Block, w: Bytes, r: nat)
    requires r > 0 && 16 * (r + 1) <= |w|
    ensures InvRound(ShiftRowsOf(SubBytesOf(Rounds(s, w, r))), w, r) == ShiftRowsOf(SubBytesOf(Rounds(s, w, r - 1)))
  {
    hide ShiftRowsOf, SubBytesOf, InvShiftRowsOf, InvSubBytesOf, MixColumnsOf, InvMixColumnsOf, AddRoundKeyOf;
    var mixed := MixColumnsOf(ShiftRowsOf(SubBytesOf(Rounds(s, w, r - 1))));
    InvSubBytesAfterShift(Rounds(s, w, r));
    InvShiftRowsInverts(Rounds(s, w, r));
    AddRoundKeyInverts(mixed, w, 16 * r);
    InvMixColumnsInverts(ShiftRowsOf(SubBytesOf(Rounds(s, w, r - 1))));
  }

  lemma {:induction false} InvRoundsInvert(s: Block, w: Bytes, r: nat)
    requires 16 * (r + 1) <= |w|
    ensures InvRounds(ShiftRowsOf(SubBytesOf(Rounds(s, w, r))), w, r) == ShiftRowsOf(SubBytesOf(Rounds(s, w, 0)))
    decreases r
  {
    hide ShiftRowsOf, SubBytesOf, InvRound, Rounds;
    if r > 0 {
      InvRoundInverts(s, w, r);
      InvRoundsInvert(s, w, r - 1);
    }
  }

  lemma AllInvRoundsInvert(s: Block, w: Bytes, nr: nat)
    requires nr > 0 && 16 * (nr + 1) <= |w|
    ensures AllInvRounds(AllRounds(s, w, nr), w, nr) == s
  {
    hide ShiftRowsOf, SubBytesOf, InvShiftRowsOf, InvSubBytesOf, AddRoundKeyOf, Rounds, InvRounds;
    AddRoundKeyInverts(ShiftRowsOf(SubBytesOf(Rounds(s, w, nr - 1))), w, 16 * nr);
    InvRoundsInvert(s, w, nr - 1);
    RoundsEnd(s, w);
    InvSubBytesAfterShift(Rounds(s, w, 0));
    InvShiftRowsInverts(Rounds(s, w, 0));
    AddRoundKeyInverts(s, w, 0);
  }

  /** For every expanded key and every block, decryption undoes encryption. */
  lemma InvCipherInverts(inp: Block, w: Bytes, nr: nat)
    requires nr > 0 && 16 * (nr + 1) <= |w|
    ensures InvCipher(Cipher(inp, w, nr), w, nr) == inp
  {
    hide AllRounds, AllInvRounds, Transposed;
    TransposedTwice(AllRounds(Transposed(inp), w, nr));
    AllInvRoundsInvert(Transposed(inp), w, nr);
    TransposedTwice(inp);
  }
}
