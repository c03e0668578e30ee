/** The word functions of SHA-256 (sections 3.2 and 4.1.2 of FIPS 180-4) and MD5 (section 3.4 of RFC 1321), bit by bit. */
module WordBits {
  import opened Sha256Words
  import opened Md5Block

  predicate LowBit(x: bv32) {
    x & 1 == 1
  }

  function Lower(x: bv32): bv32 {
    x >> 1
  }

  /** Bit i of a word, counted from the lowest. */
  predicate Bit32(x: bv32, i: nat) {
    if i == 0 then LowBit(x) else Bit32(Lower(x), i - 1)
  }

  // ---------------------------------------------------------------------------------------------
  // Xor, shifts and rotations

  lemma XorLow(x: bv32, y: bv32)
    ensures LowBit(Xor32(x, y)) == (LowBit(x) != LowBit(y)) && Lower(Xor32(x, y)) == Xor32(Lower(x), Lower(y))
  {
  }

  lemma {:induction false} XorBit(x: bv32, y: bv32, i: nat)
    ensures Bit32(Xor32(x, y), i) == (Bit32(x, i) != Bit32(y, i))
    decreases i
  {
    hide Xor32, LowBit, Lower;
    XorLow(x, y);
    if i > 0 {
      XorBit(Lower(x), Lower(y), i - 1);
    }
  }

  /** The word with a one at position k only. */
  function OneAt(k: nat): bv32 {
    match k
    case 0 => 0x1 case 1 => 0x2 case 2 => 0x4 case 3 => 0x8 case 4 => 0x10 case 5 => 0x20 case 6 => 0x40 case 7 => 0x80
    case 8 => 0x100 case 9 => 0x200 case 10 => 0x400 case 11 => 0x800 case 12 => 0x1000 case 13 => 0x2000 case 14 => 0x4000 case 15 => 0x8000
    case 16 => 0x10000 case 17 => 0x20000 case 18 => 0x40000 case 19 => 0x80000 case 20 => 0x100000 case 21 => 0x200000 case 22 => 0x400000 case 23 => 0x800000
    case 24 => 0x1000000 case 25 => 0x2000000 case 26 => 0x4000000 case 27 => 0x8000000 case 28 => 0x10000000 case 29 => 0x20000000 case 30 => 0x40000000 case _ => 0x80000000
  }

  lemma OneAtLower(k: nat)
    requires 0 < k < 32
    ensures Lower(OneAt(k)) == OneAt(k - 1) && !LowBit(OneAt(k))
  {
    match k {
      case 1 => case 2 => case 3 => case 4 => case 5 => case 6 => case 7 => case 8 => case 9 => case 10 => case 11 =>
      case 12 => case 13 => case 14 => case 15 => case 16 => case 17 => case 18 => case 19 => case 20 => case 21 =>
      case 22 => case 23 => case 24 => case 25 => case 26 => case 27 => case 28 => case 29 => case 30 => case _ =>
    }
  }

  lemma LowestOne()
    ensures Lower(0) == 0 && !LowBit(0) && Lower(1) == 0 && LowBit(1)
  {
  }

  lemma {:induction false} ZeroBit(i: nat)
    ensures !Bit32(0, i)
    decreases i
  {
    LowestOne();
    if i > 0 {
      ZeroBit(i - 1);
    }
  }

  lemma {:induction false} OneAtBit(k: nat, i: nat)
    requires k < 32
    ensures Bit32(OneAt(k), i) <==> i == k
    decreases i
  {
    hide Lower, LowBit, OneAt;
    LowestOne();
    assert OneAt(0) == 1 by { FirstOne(); }
    if k > 0 {
      OneAtLower(k);
    }
    if i > 0 {
      if k > 0 {
        OneAtBit(k - 1, i - 1);
      } else {
        ZeroBit(i - 1);
      }
    }
  }

  lemma FirstOne()
    ensures OneAt(0) == 1
  {
  }

  /** x >> n, one place at a time. */
  function Dropped(x: bv32, n: nat): bv32 {
    if n == 0 then x else Lower(Dropped(x, n - 1))
  }

  lemma {:induction false} DroppedBit(x: bv32, n: nat, i: nat)
    ensures Bit32(Dropped(x, n), i) == Bit32(x, i + n)
    decreases n
  {
    hide Lower, LowBit;
    if n > 0 {
      DroppedBit(x, n - 1, i + 1);
    }
  }

  lemma {:induction false} DroppedSum(x: bv32, m: nat, n: nat)
    ensures Dropped(Dropped(x, m), n) == Dropped(x, m + n)
    decreases n
  {
    hide Lower;
    if n > 0 {
      DroppedSum(x, m, n - 1);
    }
  }

  lemma DropTwo(x: bv32)
    ensures Dropped(x, 2) == x >> 2
  {
    assert Dropped(x, 1) == x >> 1;
  }

  lemma DropThree(x: bv32)
    ensures Dropped(x, 3) == x >> 3
  {
    DropTwo(x);
    assert Dropped(x, 3) == Lower(Dropped(x, 2));
  }

  lemma DropFive(x: bv32)
    ensures Dropped(x, 5) == x >> 5
  {
    DropThree(x);
    assert Dropped(x, 4) == (x >> 3) >> 1;
  }

  lemma DropTen(x: bv32)
    ensures Dropped(x, 10) == x >> 10
  {
    hide Dropped;
    DropFive(x);
    DropFive(x >> 5);
    DroppedSum(x, 5, 5);
  }

  lemma DropThirtyTwo(x: bv32)
    ensures Dropped(x, 32) == 0
  {
    hide Dropped;
    DropTen(x);
    DropTen(x >> 10);
    DropTen((x >> 10) >> 10);
    DroppedSum(x, 10, 10);
    DroppedSum(x, 20, 10);
    var y := ((x >> 10) >> 10) >> 10;
    DroppedSum(x, 30, 2);
    assert Dropped(y, 2) == 0 by { DropTwo(y); }
  }

  /** A word has 32 bits. */
  lemma BitsEnd(x: bv32, k: nat)
    requires k >= 32
    ensures !Bit32(x, k)
  {
    hide Dropped, Bit32;
    DropThirtyTwo(x);
    DroppedBit(x, 32, k - 32);
    ZeroBit(k - 32);
  }

  lemma ShiftBit(x: bv32, i: nat)
    ensures Bit32(x >> 3, i) == Bit32(x, i + 3) && Bit32(x >> 10, i) == Bit32(x, i + 10)
  {
    hide Dropped;
    DropThree(x);
    DropTen(x);
    DroppedBit(x, 3, i);
    DroppedBit(x, 10, i);
  }

  /** A rotation to the right by n, one place at a time. */
  function Turned(x: bv32, n: nat): bv32 {
    if n == 0 then x else RotR32(Turned(x, n - 1), 1)
  }

  function Top(b: bool): bv32 {
    if b then OneAt(31) else 0
  }

  lemma TopBit(b: bool, i: nat)
    ensures Bit32(Top(b), i) <==> b && i == 31
  {
    hide Bit32, OneAt;
    OneAtBit(31, i);
    ZeroBit(i);
  }

  lemma TurnParts(x: bv32)
    ensures RotR32(x, 1) == Xor32(Lower(x), Top(LowBit(x)))
  {
  }

  lemma BitUnfold(x: bv32, i: nat)
    ensures Bit32(x, i + 1) == Bit32(Lower(x), i) && Bit32(x, 0) == LowBit(x)
  {
  }

  lemma TurnBit(x: bv32, i: nat)
    requires i < 32
    ensures Bit32(RotR32(x, 1), i) == Bit32(x, if i == 31 then 0 else i + 1)
  {
    hide *;
    TurnParts(x);
    XorBit(Lower(x), Top(LowBit(x)), i);
    TopBit(LowBit(x), i);
    BitsEnd(x, 32);
    BitUnfold(x, i);
  }

  /** Bit i + n, counted round the word, comes to position i. */
  lemma {:induction false} TurnedBit(x: bv32, n: nat, i: nat)
    requires i < 32
    ensures Bit32(Turned(x, n), i) == Bit32(x, (i + n) % 32)
    decreases n
  {
    hide RotR32, Bit32;
    if n > 0 {
      TurnBit(Turned(x, n - 1), i);
      TurnedBit(x, n - 1, (i + 1) % 32);
      assert (i + 1) % 32 == if i == 31 then 0 else i + 1;
      assert ((i + 1) % 32 + (n - 1)) % 32 == (i + n) % 32;
    }
  }

  lemma {:induction false} TurnedSum(x: bv32, m: nat, n: nat)
    ensures Turned(Turned(x, m), n) == Turned(x, m + n)
    decreases n
  {
    hide RotR32;
    if n > 0 {
      TurnedSum(x, m, n - 1);
    }
  }

  lemma Turn1(x: bv32)
    ensures RotR32(x, 1) == Turned(x, 1)
  {
  }

  lemma Turn2(x: bv32)
    ensures RotR32(x, 2) == Turned(x, 2)
  {
    hide Turned;
    Turn1(x);
    Turn1(RotR32(x, 1));
    TurnedSum(x, 1, 1);
  }

  lemma Turn4(x: bv32)
    ensures RotR32(x, 4) == Turned(x, 4)
  {
    hide Turned;
    Turn2(x);
    Turn2(RotR32(x, 2));
    TurnedSum(x, 2, 2);
  }

  lemma Turn6(x: bv32)
    ensures RotR32(x, 6) == Turned(x, 6)
  {
    hide Turned;
    Turn4(x);
    Turn2(RotR32(x, 4));
    TurnedSum(x, 4, 2);
  }

  lemma Turn7(x: bv32)
    ensures RotR32(x, 7) == Turned(x, 7)
  {
    hide Turned;
    Turn6(x);
    Turn1(RotR32(x, 6));
    TurnedSum(x, 6, 1);
  }

  lemma Turn11(x: bv32)
    ensures RotR32(x, 11) == Turned(x, 11)
  {
    hide Turned;
    Turn7(x);
    Turn4(RotR32(x, 7));
    TurnedSum(x, 7, 4);
  }

  lemma Turn13(x: bv32)
    ensures RotR32(x, 13) == Turned(x, 13)
  {
    hide Turned;
    Turn11(x);
    Turn2(RotR32(x, 11));
    TurnedSum(x, 11, 2);
  }

  lemma Turn17(x: bv32)
    ensures RotR32(x, 17) == Turned(x, 17)
  {
    hide Turned;
    Turn13(x);
    Turn4(RotR32(x, 13));
    TurnedSum(x, 13, 4);
  }

  lemma Turn18(x: bv32)
    ensures RotR32(x, 18) == Turned(x, 18)
  {
    hide Turned;
    Turn17(x);
    Turn1(RotR32(x, 17));
    TurnedSum(x, 17, 1);
  }

  lemma Turn19(x: bv32)
    ensures RotR32(x, 19) == Turned(x, 19)
  {
    hide Turned;
    Turn18(x);
    Turn1(RotR32(x, 18));
    TurnedSum(x, 18, 1);
  }

  lemma Turn22(x: bv32)
    ensures RotR32(x, 22) == Turned(x, 22)
  {
    hide Turned;
    Turn18(x);
    Turn4(RotR32(x, 18));
    TurnedSum(x, 18, 4);
  }

  lemma Turn25(x: bv32)
    ensures RotR32(x, 25) == Turned(x, 25)
  {
    hide Turned;
    Turn18(x);
    Turn7(RotR32(x, 18));
    TurnedSum(x, 18, 7);
  }

  /** The rotations of SHA-256 are what they are called. */
  lemma RotationsTurn(x: bv32)
    ensures RotR32(x, 2) == Turned(x, 2) && RotR32(x, 6) == Turned(x, 6) && RotR32(x, 7) == Turned(x, 7)
    ensures RotR32(x, 11) == Turned(x, 11) && RotR32(x, 13) == Turned(x, 13) && RotR32(x, 17) == Turned(x, 17)
    ensures RotR32(x, 18) == Turned(x, 18) && RotR32(x, 19) == Turned(x, 19) && RotR32(x, 22) == Turned(x, 22)
    ensures RotR32(x, 25) == Turned(x, 25)
  {
    hide Turned, RotR32;
    Turn2(x);
    Turn6(x);
    Turn7(x);
    Turn11(x);
    Turn13(x);
    Turn17(x);
    Turn18(x);
    Turn19(x);
    Turn22(x);
    Turn25(x);
  }

  // ---------------------------------------------------------------------------------------------
  // SHA-256

  /** Ch chooses: the second argument where the first has a one, the third where it has a zero. */
  lemma ChChooses(x: bv32, y: bv32, z: bv32)
    ensures Ch32(x, y, z) & x == y & x && Ch32(x, y, z) & !x == z & !x
  {
  }

  /** Maj takes the majority: where the first two agree what they agree on, elsewhere the third. */
  lemma MajIsMajority(x: bv32, y: bv32, z: bv32)
    ensures Maj32(x, y, z) & !(x ^ y) == x & !(x ^ y) && Maj32(x, y, z) & (x ^ y) == z & (x ^ y)
  {
  }

  /** Each of the big sigmas is the parity of three bits. */
  lemma BigSigmaBits(x: bv32, i: nat)
    requires i < 32
    ensures Bit32(BigSigma0(x), i)
         == (Bit32(x, (i + 2) % 32) != (Bit32(x, (i + 13) % 32) != Bit32(x, (i + 22) % 32)))
    ensures Bit32(BigSigma1(x), i)
         == (Bit32(x, (i + 6) % 32) != (Bit32(x, (i + 11) % 32) != Bit32(x, (i + 25) % 32)))
  {
    hide Bit32, RotR32, Xor32, Turned;
    RotationsTurn(x);
    TurnedBit(x, 2, i);
    TurnedBit(x, 13, i);
    TurnedBit(x, 22, i);
    XorBit(RotR32(x, 2), RotR32(x, 13), i);
    XorBit(Xor32(RotR32(x, 2), RotR32(x, 13)), RotR32(x, 22), i);
    TurnedBit(x, 6, i);
    TurnedBit(x, 11, i);
    TurnedBit(x, 25, i);
    XorBit(RotR32(x, 6), RotR32(x, 11), i);
    XorBit(Xor32(RotR32(x, 6), RotR32(x, 11)), RotR32(x, 25), i);
  }

  /** So are the small ones, but for the bits that a shift has lost. */
  lemma SmallSigmaBits(x: bv32, i: nat)
    requires i < 32
    ensures Bit32(SmallSigma0(x), i)
         == (Bit32(x, (i + 7) % 32) != (Bit32(x, (i + 18) % 32) != Bit32(x, i + 3)))
    ensures Bit32(SmallSigma1(x), i)
         == (Bit32(x, (i + 17) % 32) != (Bit32(x, (i + 19) % 32) != Bit32(x, i + 10)))
    ensures forall k :: k >= 32 ==> !Bit32(x, k)
  {
    hide Bit32, RotR32, Xor32, Turned;
    RotationsTurn(x);
    TurnedBit(x, 7, i);
    TurnedBit(x, 18, i);
    XorBit(RotR32(x, 7), RotR32(x, 18), i);
    XorBit(Xor32(RotR32(x, 7), RotR32(x, 18)), x >> 3, i);
    TurnedBit(x, 17, i);
    TurnedBit(x, 19, i);
    XorBit(RotR32(x, 17), RotR32(x, 19), i);
    XorBit(Xor32(RotR32(x, 17), RotR32(x, 19)), x >> 10, i);
    ShiftBit(x, i);
    forall k | k >= 32
      ensures !Bit32(x, k)
    {
      BitsEnd(x, k);
    }
  }

  // ---------------------------------------------------------------------------------------------
  // MD5

  /** F chooses by its first argument. */
  lemma FChooses(x: bv32, y: bv32, z: bv32)
    ensures F(x, y, z) & x == y & x && F(x, y, z) & !x == z & !x
  {
  }

  /** G chooses by its third. */
  lemma GChooses(x: bv32, y: bv32, z: bv32)
    ensures G(x, y, z) & z == x & z && G(x, y, z) & !z == y & !z
  {
  }

  /** H is the parity of the three. */
  lemma ParityLaw(x: bv32, y: bv32, z: bv32)
    ensures H(x, y, z) ^ z == x ^ y
  {
  }

  /** I is the difference of the first two where the third has a one, and the opposite of the second elsewhere. */
  lemma LastLaw(x: bv32, y: bv32, z: bv32)
    ensures I(x, y, z) & !z == !y & !z
    ensures I(x, y, z) & z == (x ^ y) & z
  {
  }

  /** A rotation to the left by n is one to the right by 32 - n. */
  lemma RotateLeftIsRight(x: bv32, n: bv6)
    requires 0 < n < 32
    ensures RotateLeft(x, n) == RotR32(x, 32 - n)
  {
  }
}
