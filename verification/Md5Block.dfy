/** One block of MD5: sections 3.3 and 3.4 of RFC 1321, and the unrolled rounds of algo/MD5.cxx. */
module Md5Block {
  import opened Bytes

  datatype State = State(a: bv32, b: bv32, c: bv32, d: bv32)

  const INITIAL: State := State(0x67452301, 0xefcdab89, 0x98badcfe, 0x10325476)

  function Plus(x: bv32, y: bv32): bv32 {
    x + y
  }

  function RotateLeft(x: bv32, n: bv6): bv32
    requires n < 32
  {
    (x << n) | (x >> (32 - n))
  }

  function F(x: bv32, y: bv32, z: bv32): bv32 {
    (x & y) | (!x & z)
  }

  function G(x: bv32, y: bv32, z: bv32): bv32 {
    (x & z) | (y & !z)
  }

  function H(x: bv32, y: bv32, z: bv32): bv32 {
    x ^ y ^ z
  }

  function I(x: bv32, y: bv32, z: bv32): bv32 {
    y ^ (x | !z)
  }

  // ---------------------------------------------------------------------------------------------
  // The standard: step i of 64, by formula

  function Aux(i: nat, x: bv32, y: bv32, z: bv32): bv32 {
    if i < 16 then F(x, y, z) else if i < 32 then G(x, y, z) else if i < 48 then H(x, y, z) else I(x, y, z)
  }

  /** Which of the 16 words a step takes. */
  function Index(i: nat): (k: nat)
    ensures k < 16
  {
    if i < 16 then i else if i < 32 then (1 + 5 * i) % 16 else if i < 48 then (5 + 3 * i) % 16 else 7 * i % 16
  }

  function Rotation(i: nat): (n: bv6)
    ensures n < 32
  {
    if i < 16 then Pick(i, 7, 12, 17, 22) else if i < 32 then Pick(i, 5, 9, 14, 20)
    else if i < 48 then Pick(i, 4, 11, 16, 23) else Pick(i, 6, 10, 15, 21)
  }

  function Pick(i: nat, w: bv6, x: bv6, y: bv6, z: bv6): bv6 {
    if i % 4 == 0 then w else if i % 4 == 1 then x else if i % 4 == 2 then y else z
  }

  function Sine(i: nat): bv32 {
    match i / 8
    case 0 => (match i % 8
      case 0 => 0xd76aa478
      case 1 => 0xe8c7b756
      case 2 => 0x242070db
      case 3 => 0xc1bdceee
      case 4 => 0xf57c0faf
      case 5 => 0x4787c62a
      case 6 => 0xa8304613
      case _ => 0xfd469501)
    case 1 => (match i % 8
      case 0 => 0x698098d8
      case 1 => 0x8b44f7af
      case 2 => 0xffff5bb1
      case 3 => 0x895cd7be
      case 4 => 0x6b901122
      case 5 => 0xfd987193
      case 6 => 0xa679438e
      case _ => 0x49b40821)
    case 2 => (match i % 8
      case 0 => 0xf61e2562
      case 1 => 0xc040b340
      case 2 => 0x265e5a51
      case 3 => 0xe9b6c7aa
      case 4 => 0xd62f105d
      case 5 => 0x02441453
      case 6 => 0xd8a1e681
      case _ => 0xe7d3fbc8)
    case 3 => (match i % 8
      case 0 => 0x21e1cde6
      case 1 => 0xc33707d6
      case 2 => 0xf4d50d87
      case 3 => 0x455a14ed
      case 4 => 0xa9e3e905
      case 5 => 0xfcefa3f8
      case 6 => 0x676f02d9
      case _ => 0x8d2a4c8a)
    case 4 => (match i % 8
      case 0 => 0xfffa3942
      case 1 => 0x8771f681
      case 2 => 0x6d9d6122
      case 3 => 0xfde5380c
      case 4 => 0xa4beea44
      case 5 => 0x4bdecfa9
      case 6 => 0xf6bb4b60
      case _ => 0xbebfbc70)
    case 5 => (match i % 8
      case 0 => 0x289b7ec6
      case 1 => 0xeaa127fa
      case 2 => 0xd4ef3085
      case 3 => 0x04881d05
      case 4 => 0xd9d4d039
      case 5 => 0xe6db99e5
      case 6 => 0x1fa27cf8
      case _ => 0xc4ac5665)
    case 6 => (match i % 8
      case 0 => 0xf4292244
      case 1 => 0x432aff97
      case 2 => 0xab9423a7
      case 3 => 0xfc93a039
      case 4 => 0x655b59c3
      case 5 => 0x8f0ccc92
      case 6 => 0xffeff47d
      case _ => 0x85845dd1)
    case _ => (match i % 8
      case 0 => 0x6fa87e4f
      case 1 => 0xfe2ce6e0
      case 2 => 0xa3014314
      case 3 => 0x4e0811a1
      case 4 => 0xf7537e82
      case 5 => 0xbd3af235
      case 6 => 0x2ad7d2bb
      case _ => 0xeb86d391)
  }

  function Step(s: State, x: seq<bv32>, i: nat): State
    requires |x| == 16
  {
    State(s.d, Plus(RotateLeft(Plus(Plus(Plus(s.a, Aux(i, s.b, s.c, s.d)), x[Index(i)]), Sine(i)), Rotation(i)), s.b),
          s.b, s.c)
  }

  function Rounds(s: State, x: seq<bv32>, n: nat): State
    requires |x| == 16
    decreases n
  {
    if n == 0 then s else Step(Rounds(s, x, n - 1), x, n - 1)
  }

  function Word(b0: Byte, b1: Byte, b2: Byte, b3: Byte): bv32 {
    (b0 as bv32) | (b1 as bv32 << 8) | (b2 as bv32 << 16) | (b3 as bv32 << 24)
  }

  function Words(block: Bytes): (x: seq<bv32>)
    requires |block| == 64
    ensures |x| == 16
  {
    seq(16, i requires 0 <= i < 16 => Word(block[4 * i], block[4 * i + 1], block[4 * i + 2], block[4 * i + 3]))
  }

  function Added(s: State, t: State): State {
    State(Plus(s.a, t.a), Plus(s.b, t.b), Plus(s.c, t.c), Plus(s.d, t.d))
  }

  function Compress(s: State, block: Bytes): State
    requires |block| == 64
  {
    Added(s, Rounds(s, Words(block), 64))
  }

  // ---------------------------------------------------------------------------------------------
  // The source

  function FF(a: bv32, b: bv32, c: bv32, d: bv32, x: bv32, s: bv6, ac: bv32): bv32
    requires s < 32
  {
    Plus(RotateLeft(Plus(Plus(Plus(a, F(b, c, d)), x), ac), s), b)
  }

  function GG(a: bv32, b: bv32, c: bv32, d: bv32, x: bv32, s: bv6, ac: bv32): bv32
    requires s < 32
  {
    Plus(RotateLeft(Plus(Plus(Plus(a, G(b, c, d)), x), ac), s), b)
  }

  function HH(a: bv32, b: bv32, c: bv32, d: bv32, x: bv32, s: bv6, ac: bv32): bv32
    requires s < 32
  {
    Plus(RotateLeft(Plus(Plus(Plus(a, H(b, c, d)), x), ac), s), b)
  }

  function II(a: bv32, b: bv32, c: bv32, d: bv32, x: bv32, s: bv6, ac: bv32): bv32
    requires s < 32
  {
    Plus(RotateLeft(Plus(Plus(Plus(a, I(b, c, d)), x), ac), s), b)
  }

  lemma MoreFF(s: State, x: seq<bv32>, n: nat)
    requires |x| == 16 && 0 <= n < 16
    ensures var p := Rounds(s, x, n);
            Rounds(s, x, n + 1) == State(p.d, FF(p.a, p.b, p.c, p.d, x[Index(n)], Rotation(n), Sine(n)), p.b, p.c)
  {
    hide F, G, H, I, Plus, RotateLeft, Index, Rotation, Sine;
  }

  /** The constants that round one of the source lists are those of the formulas. */
  lemma TableOne()
    ensures Index(0) == 0 && Index(1) == 1 && Index(2) == 2 && Index(3) == 3
    ensures Rotation(0) == 7 && Rotation(1) == 12 && Rotation(2) == 17 && Rotation(3) == 22
    ensures Sine(0) == 0xd76aa478 && Sine(1) == 0xe8c7b756
    ensures Sine(2) == 0x242070db && Sine(3) == 0xc1bdceee
    ensures Index(4) == 4 && Index(5) == 5 && Index(6) == 6 && Index(7) == 7
    ensures Rotation(4) == 7 && Rotation(5) == 12 && Rotation(6) == 17 && Rotation(7) == 22
    ensures Sine(4) == 0xf57c0faf && Sine(5) == 0x4787c62a
    ensures Sine(6) == 0xa8304613 && Sine(7) == 0xfd469501
    ensures Index(8) == 8 && Index(9) == 9 && Index(10) == 10 && Index(11) == 11
    ensures Rotation(8) == 7 && Rotation(9) == 12 && Rotation(10) == 17 && Rotation(11) == 22
    ensures Sine(8) == 0x698098d8 && Sine(9) == 0x8b44f7af
    ensures Sine(10) == 0xffff5bb1 && Sine(11) == 0x895cd7be
    ensures Index(12) == 12 && Index(13) == 13 && Index(14) == 14 && Index(15) == 15
    ensures Rotation(12) == 7 && Rotation(13) == 12 && Rotation(14) == 17 && Rotation(15) == 22
    ensures Sine(12) == 0x6b901122 && Sine(13) == 0xfd987193
    ensures Sine(14) == 0xa679438e && Sine(15) == 0x49b40821
  {
  }

  method RoundOne(x: seq<bv32>, s: State, ghost was: State) returns (t: State)
    requires |x| == 16 && s == Rounds(was, x, 0)
    ensures t == Rounds(was, x, 16)
  {
    hide *;
    TableOne();
    var a, b, c, d := s.a, s.b, s.c, s.d;
    a := FF(a, b, c, d, x[0], 7, 0xd76aa478);
    MoreFF(was, x, 0);
    d := FF(d, a, b, c, x[1], 12, 0xe8c7b756);
    MoreFF(was, x, 1);
    c := FF(c, d, a, b, x[2], 17, 0x242070db);
    MoreFF(was, x, 2);
    b := FF(b, c, d, a, x[3], 22, 0xc1bdceee);
    MoreFF(was, x, 3);
    a := FF(a, b, c, d, x[4], 7, 0xf57c0faf);
    MoreFF(was, x, 4);
    d := FF(d, a, b, c, x[5], 12, 0x4787c62a);
    MoreFF(was, x, 5);
    c := FF(c, d, a, b, x[6], 17, 0xa8304613);
    MoreFF(was, x, 6);
    b := FF(b, c, d, a, x[7], 22, 0xfd469501);
    MoreFF(was, x, 7);
    a := FF(a, b, c, d, x[8], 7, 0x698098d8);
    MoreFF(was, x, 8);
    d := FF(d, a, b, c, x[9], 12, 0x8b44f7af);
    MoreFF(was, x, 9);
    c := FF(c, d, a, b, x[10], 17, 0xffff5bb1);
    MoreFF(was, x, 10);
    b := FF(b, c, d, a, x[11], 22, 0x895cd7be);
    MoreFF(was, x, 11);
    a := FF(a, b, c, d, x[12], 7, 0x6b901122);
    MoreFF(was, x, 12);
    d := FF(d, a, b, c, x[13], 12, 0xfd987193);
    MoreFF(was, x, 13);
    c := FF(c, d, a, b, x[14], 17, 0xa679438e);
    MoreFF(was, x, 14);
    b := FF(b, c, d, a, x[15], 22, 0x49b40821);
    MoreFF(was, x, 15);
    return State(a, b, c, d);
  }

  lemma MoreGG(s: State, x: seq<bv32>, n: nat)
    requires |x| == 16 && 16 <= n < 32
    ensures var p := Rounds(s, x, n);
            Rounds(s, x, n + 1) == State(p.d, GG(p.a, p.b, p.c, p.d, x[Index(n)], Rotation(n), Sine(n)), p.b, p.c)
  {
    hide F, G, H, I, Plus, RotateLeft, Index, Rotation, Sine;
  }

  /** The constants that round two of the source lists are those of the formulas. */
  lemma TableTwo()
    ensures Index(16) == 1 && Index(17) == 6 && Index(18) == 11 && Index(19) == 0
    ensures Rotation(16) == 5 && Rotation(17) == 9 && Rotation(18) == 14 && Rotation(19) == 20
    ensures Sine(16) == 0xf61e2562 && Sine(17) == 0xc040b340
    ensures Sine(18) == 0x265e5a51 && Sine(19) == 0xe9b6c7aa
    ensures Index(20) == 5 && Index(21) == 10 && Index(22) == 15 && Index(23) == 4
    ensures Rotation(20) == 5 && Rotation(21) == 9 && Rotation(22) == 14 && Rotation(23) == 20
    ensures Sine(20) == 0xd62f105d && Sine(21) == 0x02441453
    ensures Sine(22) == 0xd8a1e681 && Sine(23) == 0xe7d3fbc8
    ensures Index(24) == 9 && Index(25) == 14 && Index(26) == 3 && Index(27) == 8
    ensures Rotation(24) == 5 && Rotation(25) == 9 && Rotation(26) == 14 && Rotation(27) == 20
    ensures Sine(24) == 0x21e1cde6 && Sine(25) == 0xc33707d6
    ensures Sine(26) == 0xf4d50d87 && Sine(27) == 0x455a14ed
    ensures Index(28) == 13 && Index(29) == 2 && Index(30) == 7 && Index(31) == 12
    ensures Rotation(28) == 5 && Rotation(29) == 9 && Rotation(30) == 14 && Rotation(31) == 20
    ensures Sine(28) == 0xa9e3e905 && Sine(29) == 0xfcefa3f8
    ensures Sine(30) == 0x676f02d9 && Sine(31) == 0x8d2a4c8a
  {
  }

  method RoundTwo(x: seq<bv32>, s: State, ghost was: State) returns (t: State)
    requires |x| == 16 && s == Rounds(was, x, 16)
    ensures t == Rounds(was, x, 32)
  {
    hide *;
    TableTwo();
    var a, b, c, d := s.a, s.b, s.c, s.d;
    a := GG(a, b, c, d, x[1], 5, 0xf61e2562);
    MoreGG(was, x, 16);
    d := GG(d, a, b, c, x[6], 9, 0xc040b340);
    MoreGG(was, x, 17);
    c := GG(c, d, a, b, x[11], 14, 0x265e5a51);
    MoreGG(was, x, 18);
    b := GG(b, c, d, a, x[0], 20, 0xe9b6c7aa);
    MoreGG(was, x, 19);
    a := GG(a, b, c, d, x[5], 5, 0xd62f105d);
    MoreGG(was, x, 20);
    d := GG(d, a, b, c, x[10], 9, 0x02441453);
    MoreGG(was, x, 21);
    c := GG(c, d, a, b, x[15], 14, 0xd8a1e681);
    MoreGG(was, x, 22);
    b := GG(b, c, d, a, x[4], 20, 0xe7d3fbc8);
    MoreGG(was, x, 23);
    a := GG(a, b, c, d, x[9], 5, 0x21e1cde6);
    MoreGG(was, x, 24);
    d := GG(d, a, b, c, x[14], 9, 0xc33707d6);
    MoreGG(was, x, 25);
    c := GG(c, d, a, b, x[3], 14, 0xf4d50d87);
    MoreGG(was, x, 26);
    b := GG(b, c, d, a, x[8], 20, 0x455a14ed);
    MoreGG(was, x, 27);
    a := GG(a, b, c, d, x[13], 5, 0xa9e3e905);
    MoreGG(was, x, 28);
    d := GG(d, a, b, c, x[2], 9, 0xfcefa3f8);
    MoreGG(was, x, 29);
    c := GG(c, d, a, b, x[7], 14, 0x676f02d9);
    MoreGG(was, x, 30);
    b := GG(b, c, d, a, x[12], 20, 0x8d2a4c8a);
    MoreGG(was, x, 31);
    return State(a, b, c, d);
  }

  lemma MoreHH(s: State, x: seq<bv32>, n: nat)
    requires |x| == 16 && 32 <= n < 48
    ensures var p := Rounds(s, x, n);
            Rounds(s, x, n + 1) == State(p.d, HH(p.a, p.b, p.c, p.d, x[Index(n)], Rotation(n), Sine(n)), p.b, p.c)
  {
    hide F, G, H, I, Plus, RotateLeft, Index, Rotation, Sine;
  }

  /** The constants that round three of the source lists are those of the formulas. */
  lemma TableThree()
    ensures Index(32) == 5 && Index(33) == 8 && Index(34) == 11 && Index(35) == 14
    ensures Rotation(32) == 4 && Rotation(33) == 11 && Rotation(34) == 16 && Rotation(35) == 23
    ensures Sine(32) == 0xfffa3942 && Sine(33) == 0x8771f681
    ensures Sine(34) == 0x6d9d6122 && Sine(35) == 0xfde5380c
    ensures Index(36) == 1 && Index(37) == 4 && Index(38) == 7 && Index(39) == 10
    ensures Rotation(36) == 4 && Rotation(37) == 11 && Rotation(38) == 16 && Rotation(39) == 23
    ensures Sine(36) == 0xa4beea44 && Sine(37) == 0x4bdecfa9
    ensures Sine(38) == 0xf6bb4b60 && Sine(39) == 0xbebfbc70
    ensures Index(40) == 13 && Index(41) == 0 && Index(42) == 3 && Index(43) == 6
    ensures Rotation(40) == 4 && Rotation(41) == 11 && Rotation(42) == 16 && Rotation(43) == 23
    ensures Sine(40) == 0x289b7ec6 && Sine(41) == 0xeaa127fa
    ensures Sine(42) == 0xd4ef3085 && Sine(43) == 0x04881d05
    ensures Index(44) == 9 && Index(45) == 12 && Index(46) == 15 && Index(47) == 2
    ensures Rotation(44) == 4 && Rotation(45) == 11 && Rotation(46) == 16 && Rotation(47) == 23
    ensures Sine(44) == 0xd9d4d039 && Sine(45) == 0xe6db99e5
    ensures Sine(46) == 0x1fa27cf8 && Sine(47) == 0xc4ac5665
  {
  }

  method RoundThree(x: seq<bv32>, s: State, ghost was: State) returns (t: State)
    requires |x| == 16 && s == Rounds(was, x, 32)
    ensures t == Rounds(was, x, 48)
  {
    hide *;
    TableThree();
    var a, b, c, d := s.a, s.b, s.c, s.d;
    a := HH(a, b, c, d, x[5], 4, 0xfffa3942);
    MoreHH(was, x, 32);
    d := HH(d, a, b, c, x[8], 11, 0x8771f681);
    MoreHH(was, x, 33);
    c := HH(c, d, a, b, x[11], 16, 0x6d9d6122);
    MoreHH(was, x, 34);
    b := HH(b, c, d, a, x[14], 23, 0xfde5380c);
    MoreHH(was, x, 35);
    a := HH(a, b, c, d, x[1], 4, 0xa4beea44);
    MoreHH(was, x, 36);
    d := HH(d, a, b, c, x[4], 11, 0x4bdecfa9);
    MoreHH(was, x, 37);
    c := HH(c, d, a, b, x[7], 16, 0xf6bb4b60);
    MoreHH(was, x, 38);
    b := HH(b, c, d, a, x[10], 23, 0xbebfbc70);
    MoreHH(was, x, 39);
    a := HH(a, b, c, d, x[13], 4, 0x289b7ec6);
    MoreHH(was, x, 40);
    d := HH(d, a, b, c, x[0], 11, 0xeaa127fa);
    MoreHH(was, x, 41);
    c := HH(c, d, a, b, x[3], 16, 0xd4ef3085);
    MoreHH(was, x, 42);
    b := HH(b, c, d, a, x[6], 23, 0x04881d05);
    MoreHH(was, x, 43);
    a := HH(a, b, c, d, x[9], 4, 0xd9d4d039);
    MoreHH(was, x, 44);
    d := HH(d, a, b, c, x[12], 11, 0xe6db99e5);
    MoreHH(was, x, 45);
    c := HH(c, d, a, b, x[15], 16, 0x1fa27cf8);
    MoreHH(was, x, 46);
    b := HH(b, c, d, a, x[2], 23, 0xc4ac5665);
    MoreHH(was, x, 47);
    return State(a, b, c, d);
  }

  lemma MoreII(s: State, x: seq<bv32>, n: nat)
    requires |x| == 16 && 48 <= n < 64
    ensures var p := Rounds(s, x, n);
            Rounds(s, x, n + 1) == State(p.d, II(p.a, p.b, p.c, p.d, x[Index(n)], Rotation(n), Sine(n)), p.b, p.c)
  {
    hide F, G, H, I, Plus, RotateLeft, Index, Rotation, Sine;
  }

  /** The constants that round four of the source lists are those of the formulas. */
  lemma TableFour()
    ensures Index(48) == 0 && Index(49) == 7 && Index(50) == 14 && Index(51) == 5
    ensures Rotation(48) == 6 && Rotation(49) == 10 && Rotation(50) == 15 && Rotation(51) == 21
    ensures Sine(48) == 0xf4292244 && Sine(49) == 0x432aff97
    ensures Sine(50) == 0xab9423a7 && Sine(51) == 0xfc93a039
    ensures Index(52) == 12 && Index(53) == 3 && Index(54) == 10 && Index(55) == 1
    ensures Rotation(52) == 6 && Rotation(53) == 10 && Rotation(54) == 15 && Rotation(55) == 21
    ensures Sine(52) == 0x655b59c3 && Sine(53) == 0x8f0ccc92
    ensures Sine(54) == 0xffeff47d && Sine(55) == 0x85845dd1
    ensures Index(56) == 8 && Index(57) == 15 && Index(58) == 6 && Index(59) == 13
    ensures Rotation(56) == 6 && Rotation(57) == 10 && Rotation(58) == 15 && Rotation(59) == 21
    ensures Sine(56) == 0x6fa87e4f && Sine(57) == 0xfe2ce6e0
    ensures Sine(58) == 0xa3014314 && Sine(59) == 0x4e0811a1
    ensures Index(60) == 4 && Index(61) == 11 && Index(62) == 2 && Index(63) == 9
    ensures Rotation(60) == 6 && Rotation(61) == 10 && Rotation(62) == 15 && Rotation(63) == 21
    ensures Sine(60) == 0xf7537e82 && Sine(61) == 0xbd3af235
    ensures Sine(62) == 0x2ad7d2bb && Sine(63) == 0xeb86d391
  {
  }

  method RoundFour(x: seq<bv32>, s: State, ghost was: State) returns (t: State)
    requires |x| == 16 && s == Rounds(was, x, 48)
    ensures t == Rounds(was, x, 64)
  {
    hide *;
    TableFour();
    var a, b, c, d := s.a, s.b, s.c, s.d;
    a := II(a, b, c, d, x[0], 6, 0xf4292244);
    MoreII(was, x, 48);
    d := II(d, a, b, c, x[7], 10, 0x432aff97);
    MoreII(was, x, 49);
    c := II(c, d, a, b, x[14], 15, 0xab9423a7);
    MoreII(was, x, 50);
    b := II(b, c, d, a, x[5], 21, 0xfc93a039);
    MoreII(was, x, 51);
    a := II(a, b, c, d, x[12], 6, 0x655b59c3);
    MoreII(was, x, 52);
    d := II(d, a, b, c, x[3], 10, 0x8f0ccc92);
    MoreII(was, x, 53);
    c := II(c, d, a, b, x[10], 15, 0xffeff47d);
    MoreII(was, x, 54);
    b := II(b, c, d, a, x[1], 21, 0x85845dd1);
    MoreII(was, x, 55);
    a := II(a, b, c, d, x[8], 6, 0x6fa87e4f);
    MoreII(was, x, 56);
    d := II(d, a, b, c, x[15], 10, 0xfe2ce6e0);
    MoreII(was, x, 57);
    c := II(c, d, a, b, x[6], 15, 0xa3014314);
    MoreII(was, x, 58);
    b := II(b, c, d, a, x[13], 21, 0x4e0811a1);
    MoreII(was, x, 59);
    a := II(a, b, c, d, x[4], 6, 0xf7537e82);
    MoreII(was, x, 60);
    d := II(d, a, b, c, x[11], 10, 0xbd3af235);
    MoreII(was, x, 61);
    c := II(c, d, a, b, x[2], 15, 0x2ad7d2bb);
    MoreII(was, x, 62);
    b := II(b, c, d, a, x[9], 21, 0xeb86d391);
    MoreII(was, x, 63);
    return State(a, b, c, d);
  }

  /** Adds one block to the state. */
  method Transform(state: array<bv32>, block: Bytes)
    requires state.Length == 4 && |block| == 64
    modifies state
    ensures AsState(state) == Compress(old(AsState(state)), block)
  {
    hide Plus, Words, Rounds;
    var x := Decode(block);
    ghost var was := AsState(state);
    RoundsNone(was, x[..]);
    var s := RoundOne(x[..], AsState(state), was);
    s := RoundTwo(x[..], s, was);
    s := RoundThree(x[..], s, was);
    s := RoundFour(x[..], s, was);
    state[0] := Plus(state[0], s.a);
    state[1] := Plus(state[1], s.b);
    state[2] := Plus(state[2], s.c);
    state[3] := Plus(state[3], s.d);
  }

  lemma RoundsNone(s: State, x: seq<bv32>)
    requires |x| == 16
    ensures Rounds(s, x, 0) == s
  {
  }

  function AsState(state: array<bv32>): State
    requires state.Length == 4
    reads state
  {
    State(state[0], state[1], state[2], state[3])
  }

  /** The words of a block, low byte first. */
  method Decode(input: Bytes) returns (output: array<bv32>)
    requires |input| == 64
    ensures fresh(output) && output[..] == Words(input)
  {
    hide Word;
    output := new bv32[16];
    var i, j := 0, 0;
    while j < 64
      invariant j == 4 * i <= 64 && output.Length == 16
      invariant output[..i] == Words(input)[..i]
    {
      output[i] := Word(input[j], input[j + 1], input[j + 2], input[j + 3]);
      i, j := i + 1, j + 4;
    }
  }
}
