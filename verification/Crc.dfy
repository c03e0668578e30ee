/** CRC-32 and CRC-8 as computed by algo/crc.cxx.

    The reference definition is the bit-serial one: the message is divided, least significant bit first, by a
    reflected polynomial.  The table-driven methods are proved against it. */
module Crc {
  import opened Bytes

  // ---------------------------------------------------------------------------------------------
  // CRC-32: the bit-serial reference

  const CRC32_POLY: bv32 := 0xEDB88320

  /** One division step without input: the register moves by one bit. */
  function Shift(c: bv32): bv32 {
    if c & 1 == 1 then (c >> 1) ^ CRC32_POLY else c >> 1
  }

  /** One division step that takes in one message bit. */
  function FeedBit(c: bv32, bit: bv1): bv32 {
    if (c & 1) as bv1 != bit then (c >> 1) ^ CRC32_POLY else c >> 1
  }

  /** The low n bits of b enter the register, least significant first. */
  function FeedBits(c: bv32, b: Byte, n: nat): bv32
    decreases n
  {
    if n == 0 then c else FeedBits(FeedBit(c, (b & 1) as bv1), b >> 1, n - 1)
  }

  function FeedByte(c: bv32, b: Byte): bv32 {
    FeedBits(c, b, 8)
  }

  /** The register after the whole buffer has been divided. */
  function Register(c: bv32, buf: Bytes): bv32 {
    if buf == [] then c else FeedByte(Register(c, buf[..|buf| - 1]), buf[|buf| - 1])
  }

  /** CRC-32 of a buffer: initial value and final complement are all ones. */
  function Crc32(buf: Bytes): bv32 {
    Complement(Register(0xFFFF_FFFF, buf))
  }

  function Complement(c: bv32): bv32 {
    c ^ 0xFFFF_FFFF
  }

  // ---------------------------------------------------------------------------------------------
  // CRC-32: the table form

  function Crc32Table(i: Byte): bv32 {
    match i >> 4
    case 0 => (match i & 15
      case  0 => 0x00000000 case  1 => 0x77073096 case  2 => 0xEE0E612C case  3 => 0x990951BA
      case  4 => 0x076DC419 case  5 => 0x706AF48F case  6 => 0xE963A535 case  7 => 0x9E6495A3
      case  8 => 0x0EDB8832 case  9 => 0x79DCB8A4 case 10 => 0xE0D5E91E case 11 => 0x97D2D988
      case 12 => 0x09B64C2B case 13 => 0x7EB17CBD case 14 => 0xE7B82D07 case 15 => 0x90BF1D91)
    case 1 => (match i & 15
      case  0 => 0x1DB71064 case  1 => 0x6AB020F2 case  2 => 0xF3B97148 case  3 => 0x84BE41DE
      case  4 => 0x1ADAD47D case  5 => 0x6DDDE4EB case  6 => 0xF4D4B551 case  7 => 0x83D385C7
      case  8 => 0x136C9856 case  9 => 0x646BA8C0 case 10 => 0xFD62F97A case 11 => 0x8A65C9EC
      case 12 => 0x14015C4F case 13 => 0x63066CD9 case 14 => 0xFA0F3D63 case 15 => 0x8D080DF5)
    case 2 => (match i & 15
      case  0 => 0x3B6E20C8 case  1 => 0x4C69105E case  2 => 0xD56041E4 case  3 => 0xA2677172
      case  4 => 0x3C03E4D1 case  5 => 0x4B04D447 case  6 => 0xD20D85FD case  7 => 0xA50AB56B
      case  8 => 0x35B5A8FA case  9 => 0x42B2986C case 10 => 0xDBBBC9D6 case 11 => 0xACBCF940
      case 12 => 0x32D86CE3 case 13 => 0x45DF5C75 case 14 => 0xDCD60DCF case 15 => 0xABD13D59)
    case 3 => (match i & 15
      case  0 => 0x26D930AC case  1 => 0x51DE003A case  2 => 0xC8D75180 case  3 => 0xBFD06116
      case  4 => 0x21B4F4B5 case  5 => 0x56B3C423 case  6 => 0xCFBA9599 case  7 => 0xB8BDA50F
      case  8 => 0x2802B89E case  9 => 0x5F058808 case 10 => 0xC60CD9B2 case 11 => 0xB10BE924
      case 12 => 0x2F6F7C87 case 13 => 0x58684C11 case 14 => 0xC1611DAB case 15 => 0xB6662D3D)
    case 4 => (match i & 15
      case  0 => 0x76DC4190 case  1 => 0x01DB7106 case  2 => 0x98D220BC case  3 => 0xEFD5102A
      case  4 => 0x71B18589 case  5 => 0x06B6B51F case  6 => 0x9FBFE4A5 case  7 => 0xE8B8D433
      case  8 => 0x7807C9A2 case  9 => 0x0F00F934 case 10 => 0x9609A88E case 11 => 0xE10E9818
      case 12 => 0x7F6A0DBB case 13 => 0x086D3D2D case 14 => 0x91646C97 case 15 => 0xE6635C01)
    case 5 => (match i & 15
      case  0 => 0x6B6B51F4 case  1 => 0x1C6C6162 case  2 => 0x856530D8 case  3 => 0xF262004E
      case  4 => 0x6C0695ED case  5 => 0x1B01A57B case  6 => 0x8208F4C1 case  7 => 0xF50FC457
      case  8 => 0x65B0D9C6 case  9 => 0x12B7E950 case 10 => 0x8BBEB8EA case 11 => 0xFCB9887C
      case 12 => 0x62DD1DDF case 13 => 0x15DA2D49 case 14 => 0x8CD37CF3 case 15 => 0xFBD44C65)
    case 6 => (match i & 15
      case  0 => 0x4DB26158 case  1 => 0x3AB551CE case  2 => 0xA3BC0074 case  3 => 0xD4BB30E2
      case  4 => 0x4ADFA541 case  5 => 0x3DD895D7 case  6 => 0xA4D1C46D case  7 => 0xD3D6F4FB
      case  8 => 0x4369E96A case  9 => 0x346ED9FC case 10 => 0xAD678846 case 11 => 0xDA60B8D0
      case 12 => 0x44042D73 case 13 => 0x33031DE5 case 14 => 0xAA0A4C5F case 15 => 0xDD0D7CC9)
    case 7 => (match i & 15
      case  0 => 0x5005713C case  1 => 0x270241AA case  2 => 0xBE0B1010 case  3 => 0xC90C2086
      case  4 => 0x5768B525 case  5 => 0x206F85B3 case  6 => 0xB966D409 case  7 => 0xCE61E49F
      case  8 => 0x5EDEF90E case  9 => 0x29D9C998 case 10 => 0xB0D09822 case 11 => 0xC7D7A8B4
      case 12 => 0x59B33D17 case 13 => 0x2EB40D81 case 14 => 0xB7BD5C3B case 15 => 0xC0BA6CAD)
    case 8 => (match i & 15
      case  0 => 0xEDB88320 case  1 => 0x9ABFB3B6 case  2 => 0x03B6E20C case  3 => 0x74B1D29A
      case  4 => 0xEAD54739 case  5 => 0x9DD277AF case  6 => 0x04DB2615 case  7 => 0x73DC1683
      case  8 => 0xE3630B12 case  9 => 0x94643B84 case 10 => 0x0D6D6A3E case 11 => 0x7A6A5AA8
      case 12 => 0xE40ECF0B case 13 => 0x9309FF9D case 14 => 0x0A00AE27 case 15 => 0x7D079EB1)
    case 9 => (match i & 15
      case  0 => 0xF00F9344 case  1 => 0x8708A3D2 case  2 => 0x1E01F268 case  3 => 0x6906C2FE
      case  4 => 0xF762575D case  5 => 0x806567CB case  6 => 0x196C3671 case  7 => 0x6E6B06E7
      case  8 => 0xFED41B76 case  9 => 0x89D32BE0 case 10 => 0x10DA7A5A case 11 => 0x67DD4ACC
      case 12 => 0xF9B9DF6F case 13 => 0x8EBEEFF9 case 14 => 0x17B7BE43 case 15 => 0x60B08ED5)
    case 10 => (match i & 15
      case  0 => 0xD6D6A3E8 case  1 => 0xA1D1937E case  2 => 0x38D8C2C4 case  3 => 0x4FDFF252
      case  4 => 0xD1BB67F1 case  5 => 0xA6BC5767 case  6 => 0x3FB506DD case  7 => 0x48B2364B
      case  8 => 0xD80D2BDA case  9 => 0xAF0A1B4C case 10 => 0x36034AF6 case 11 => 0x41047A60
      case 12 => 0xDF60EFC3 case 13 => 0xA867DF55 case 14 => 0x316E8EEF case 15 => 0x4669BE79)
    case 11 => (match i & 15
      case  0 => 0xCB61B38C case  1 => 0xBC66831A case  2 => 0x256FD2A0 case  3 => 0x5268E236
      case  4 => 0xCC0C7795 case  5 => 0xBB0B4703 case  6 => 0x220216B9 case  7 => 0x5505262F
      case  8 => 0xC5BA3BBE case  9 => 0xB2BD0B28 case 10 => 0x2BB45A92 case 11 => 0x5CB36A04
      case 12 => 0xC2D7FFA7 case 13 => 0xB5D0CF31 case 14 => 0x2CD99E8B case 15 => 0x5BDEAE1D)
    case 12 => (match i & 15
      case  0 => 0x9B64C2B0 case  1 => 0xEC63F226 case  2 => 0x756AA39C case  3 => 0x026D930A
      case  4 => 0x9C0906A9 case  5 => 0xEB0E363F case  6 => 0x72076785 case  7 => 0x05005713
      case  8 => 0x95BF4A82 case  9 => 0xE2B87A14 case 10 => 0x7BB12BAE case 11 => 0x0CB61B38
      case 12 => 0x92D28E9B case 13 => 0xE5D5BE0D case 14 => 0x7CDCEFB7 case 15 => 0x0BDBDF21)
    case 13 => (match i & 15
      case  0 => 0x86D3D2D4 case  1 => 0xF1D4E242 case  2 => 0x68DDB3F8 case  3 => 0x1FDA836E
      case  4 => 0x81BE16CD case  5 => 0xF6B9265B case  6 => 0x6FB077E1 case  7 => 0x18B74777
      case  8 => 0x88085AE6 case  9 => 0xFF0F6A70 case 10 => 0x66063BCA case 11 => 0x11010B5C
      case 12 => 0x8F659EFF case 13 => 0xF862AE69 case 14 => 0x616BFFD3 case 15 => 0x166CCF45)
    case 14 => (match i & 15
      case  0 => 0xA00AE278 case  1 => 0xD70DD2EE case  2 => 0x4E048354 case  3 => 0x3903B3C2
      case  4 => 0xA7672661 case  5 => 0xD06016F7 case  6 => 0x4969474D case  7 => 0x3E6E77DB
      case  8 => 0xAED16A4A case  9 => 0xD9D65ADC case 10 => 0x40DF0B66 case 11 => 0x37D83BF0
      case 12 => 0xA9BCAE53 case 13 => 0xDEBB9EC5 case 14 => 0x47B2CF7F case 15 => 0x30B5FFE9)
    case 15 => (match i & 15
      case  0 => 0xBDBDF21C case  1 => 0xCABAC28A case  2 => 0x53B39330 case  3 => 0x24B4A3A6
      case  4 => 0xBAD03605 case  5 => 0xCDD70693 case  6 => 0x54DE5729 case  7 => 0x23D967BF
      case  8 => 0xB3667A2E case  9 => 0xC4614AB8 case 10 => 0x5D681B02 case 11 => 0x2A6F2B94
      case 12 => 0xB40BBE37 case 13 => 0xC30C8EA1 case 14 => 0x5A05DF1B case 15 => 0x2D02EF8D)
  }

  function ShiftN(c: bv32, n: nat): bv32
    decreases n
  {
    if n == 0 then c else ShiftN(Shift(c), n - 1)
  }

  function Shift8(c: bv32): bv32 {
    Shift(Shift(Shift(Shift(Shift(Shift(Shift(Shift(c))))))))
  }

  lemma LowerHalfOfTable(i: Byte)
    requires i < 0x80
    ensures Crc32Table(i) == Shift8(i as bv32)
  {
    // one case per row of sixteen entries
    match i >> 4
    case 0 =>
    case 1 =>
    case 2 =>
    case 3 =>
    case 4 =>
    case 5 =>
    case 6 =>
    case _ =>
  }

  lemma UpperHalfOfTable(i: Byte)
    requires i >= 0x80
    ensures Crc32Table(i) == Shift8(i as bv32)
  {
    match i >> 4
    case 8 =>
    case 9 =>
    case 10 =>
    case 11 =>
    case 12 =>
    case 13 =>
    case 14 =>
    case _ =>
  }

  /** Every one of the 256 table entries is eight division steps of its index. */
  lemma TableIsEightShifts(i: Byte)
    ensures Crc32Table(i) == ShiftN(i as bv32, 8)
  {
    if i < 0x80 { LowerHalfOfTable(i); } else { UpperHalfOfTable(i); }
    Shift8IsShiftN(i as bv32);
  }

  lemma Shift8IsShiftN(c: bv32)
    ensures Shift8(c) == ShiftN(c, 8)
  {
  }

  lemma LowBitOfXor(c: bv32, b: Byte)
    ensures ((c ^ b as bv32) & 1 == 1) == ((c & 1) as bv1 != (b & 1) as bv1)
    ensures (c ^ b as bv32) >> 1 == (c >> 1) ^ (b as bv32 >> 1)
  {
  }

  lemma XorSwap(x: bv32, y: bv32, z: bv32)
    ensures (x ^ y) ^ z == (x ^ z) ^ y
  {
  }

  lemma BitsDiffer(c: bv32, b: Byte)
    ensures (c & 1) as bv1 != (b & 1) as bv1 ==> Shift(Xor(c, b as bv32)) == Xor(Xor(c >> 1, CRC32_POLY), b as bv32 >> 1)
  {
    LowBitOfXor(c, b);
    XorSwap(c >> 1, b as bv32 >> 1, CRC32_POLY);
  }

  lemma BitsAgree(c: bv32, b: Byte)
    ensures (c & 1) as bv1 == (b & 1) as bv1 ==> Shift(Xor(c, b as bv32)) == Xor(c >> 1, b as bv32 >> 1)
  {
    LowBitOfXor(c, b);
  }

  lemma FeedBitXor(c: bv32, bit: bv1)
    ensures FeedBit(c, bit) == if (c & 1) as bv1 != bit then Xor(c >> 1, CRC32_POLY) else c >> 1
  {
  }

  lemma HalfWidened(b: Byte)
    ensures (b >> 1) as bv32 == b as bv32 >> 1
  {
  }

  lemma FeedBitThenShift(c: bv32, b: Byte)
    ensures Shift(Xor(c, b as bv32)) == Xor(FeedBit(c, (b & 1) as bv1), (b >> 1) as bv32)
  {
    hide Shift, FeedBit, Xor;
    BitsDiffer(c, b);
    BitsAgree(c, b);
    FeedBitXor(c, (b & 1) as bv1);
    HalfWidened(b);
  }

  /** Feeding the n bits of b one by one is xoring b in at once and shifting n times. */
  lemma {:induction false} FeedBitsIsShiftN(c: bv32, b: Byte, n: nat)
    requires n <= 8 && HasBits(b, n)
    ensures FeedBits(c, b, n) == ShiftN(c ^ b as bv32, n)
    decreases n
  {
    if n == 0 {
      assert c ^ 0 == c;
    } else {
      FeedBitsIsShiftN(FeedBit(c, (b & 1) as bv1), b >> 1, n - 1);
      FeedBitThenShift(c, b);
    }
  }

  lemma FeedByteIsShiftN(c: bv32, b: Byte)
    ensures FeedByte(c, b) == ShiftN(Enter(c, b), 8)
  {
    hide ShiftN;
    assert HasBits(b, 8);
    FeedBitsIsShiftN(c, b, 8);
  }

  /** One turn of the table loop. */
  function TableTurn(c: bv32, b: Byte): bv32 {
    Xor(Down(c), Crc32Table(LowByte(Enter(c, b))))
  }

  /** One turn of the table loop is one byte of bit-serial division. */
  lemma TableStep(c: bv32, b: Byte)
    ensures TableTurn(c, b) == FeedByte(c, b)
  {
    hide *;
    TableTurnIsShiftN(c, b);
    FeedByteIsShiftN(c, b);
  }

  function Enter(c: bv32, b: Byte): bv32 {
    c ^ b as bv32
  }

  function LowByte(x: bv32): Byte {
    (x & 0xFF) as Byte
  }

  function Above(x: bv32): bv32 {
    x & 0xFFFF_FF00
  }

  function Down(x: bv32): bv32 {
    x >> 8
  }

  lemma TableTurnIsShiftN(c: bv32, b: Byte)
    ensures TableTurn(c, b) == ShiftN(Enter(c, b), 8)
  {
    hide ShiftN, Crc32Table, Xor, Down, LowByte, Enter, Above;
    var x := Enter(c, b);
    var low := LowByte(x);
    assert TableTurn(c, b) == Xor(Down(c), Crc32Table(low));
    SplitLowByte(x);
    ShiftNAbsorbsLater(low as bv32, Above(x));
    TableIsEightShifts(low);
    XorCommutes(Down(c), Crc32Table(low));
    assert Down(x) == Down(c) by { EnterIsLow(c, b); }
  }

  lemma EnterIsLow(c: bv32, b: Byte)
    ensures Down(Enter(c, b)) == Down(c)
  {
  }

  lemma XorCommutes(a: bv32, b: bv32)
    ensures Xor(a, b) == Xor(b, a)
  {
  }

  lemma SplitLowByte(x: bv32)
    ensures x == Xor(LowByte(x) as bv32, Above(x))
    ensures Down(Above(x)) == Down(x)
    ensures Above(x) & 0xFF == 0
  {
  }

  function Xor(a: bv32, b: bv32): bv32 {
    a ^ b
  }

  lemma ShiftLinear(x: bv32, z: bv32)
    ensures Shift(x ^ z) == Shift(x) ^ Shift(z)
  {
    LowBit(x);
    LowBit(z);
    XorParts(x, z);
    XorMovesOut(x >> 1, z >> 1, CRC32_POLY);
  }

  lemma ShiftXor(x: bv32, z: bv32)
    ensures Shift(Xor(x, z)) == Xor(Shift(x), Shift(z))
  {
    hide Shift;
    ShiftLinear(x, z);
  }

  lemma LowBit(c: bv32)
    ensures c & 1 == 0 || c & 1 == 1
  {
  }

  lemma XorParts(x: bv32, z: bv32)
    ensures (x ^ z) >> 1 == (x >> 1) ^ (z >> 1) && (x ^ z) & 1 == (x & 1) ^ (z & 1)
  {
  }

  lemma XorMovesOut(a: bv32, b: bv32, p: bv32)
    ensures (a ^ p) ^ (b ^ p) == a ^ b && (a ^ p) ^ b == (a ^ b) ^ p && a ^ (b ^ p) == (a ^ b) ^ p
  {
  }

  /** Division is linear over GF(2). */
  lemma {:induction false} ShiftNLinear(x: bv32, z: bv32, n: nat)
    ensures ShiftN(Xor(x, z), n) == Xor(ShiftN(x, n), ShiftN(z, n))
    decreases n
  {
    hide Shift, Xor;
    if n > 0 {
      assert Shift(Xor(x, z)) == Xor(Shift(x), Shift(z)) by { ShiftXor(x, z); }
      ShiftNLinear(Shift(x), Shift(z), n - 1);
    }
  }

  lemma ClearByteShifts(z: bv32)
    requires z & 0xFF == 0
    ensures ShiftN(z, 8) == Down(z)
  {
    Shift8IsShiftN(z);
  }

  /** Material above the low eight bits only moves down during eight shifts. */
  lemma ShiftNAbsorbsLater(x: bv32, z: bv32)
    requires z & 0xFF == 0
    ensures ShiftN(Xor(x, z), 8) == Xor(ShiftN(x, 8), Down(z))
  {
    hide *;
    ShiftNLinear(x, z, 8);
    ClearByteShifts(z);
  }

  // ---------------------------------------------------------------------------------------------
  // CRC-32: the methods

  lemma {:induction false} RegisterConcat(c: bv32, a: Bytes, b: Bytes)
    ensures Register(c, a + b) == Register(Register(c, a), b)
  {
    hide FeedByte;
    if b == [] {
      assert a + b == a;
    } else {
      var n := |b| - 1;
      assert (a + b)[..|a| + n] == a + b[..n];
      RegisterConcat(c, a, b[..n]);
    }
  }

  method Crc32Buf(buf: array<Byte>, len: nat) returns (crc: bv32)
    requires len <= buf.Length
    ensures crc == Crc32(buf[..len])
  {
    hide TableTurn, FeedByte;
    crc := 0xFFFF_FFFF;
    var i := 0;
    while i < len
      invariant 0 <= i <= len
      invariant crc == Register(0xFFFF_FFFF, buf[..i])
    {
      TableStep(crc, buf[i]);
      assert buf[..i + 1][..i] == buf[..i];
      crc := TableTurn(crc, buf[i]);
      i := i + 1;
    }
    crc := crc ^ 0xFFFF_FFFF;
  }

  method Crc32ShotInit() returns (crc: bv32)
    ensures crc == Register(0xFFFF_FFFF, [])
  {
    crc := 0xFFFF_FFFF;
  }

  method Crc32Shot(crc0: bv32, buf: array<Byte>, len: nat) returns (crc: bv32)
    requires len <= buf.Length
    ensures crc == Register(crc0, buf[..len])
  {
    hide TableTurn, FeedByte;
    crc := crc0;
    var i := 0;
    while i < len
      invariant 0 <= i <= len
      invariant crc == Register(crc0, buf[..i])
    {
      TableStep(crc, buf[i]);
      assert buf[..i + 1][..i] == buf[..i];
      crc := TableTurn(crc, buf[i]);
      i := i + 1;
    }
  }

  method Crc32ShotStop(crc0: bv32) returns (crc: bv32)
    ensures forall m: Bytes :: crc0 == Register(0xFFFF_FFFF, m) ==> crc == Crc32(m)
  {
    crc := crc0 ^ 0xFFFF_FFFF;
  }

  /** What a run of Crc32Shot calls leaves in the register. */
  function Shots(c: bv32, chunks: seq<Bytes>): bv32 {
    if chunks == [] then c else Register(Shots(c, chunks[..|chunks| - 1]), chunks[|chunks| - 1])
  }

  /** However the message is cut into Crc32Shot calls, Init/Shot/Stop gives the CRC of the whole. */
  lemma {:induction false} ShotsAreOneBuffer(c: bv32, chunks: seq<Bytes>)
    ensures Shots(c, chunks) == Register(c, Flatten(chunks))
  {
    if chunks != [] {
      var n := |chunks| - 1;
      ShotsAreOneBuffer(c, chunks[..n]);
      RegisterConcat(c, Flatten(chunks[..n]), chunks[n]);
    }
  }

  // ---------------------------------------------------------------------------------------------
  // CRC-32: burst detection

  lemma ShiftInjective(c: bv32, d: bv32)
    requires Shift(c) == Shift(d)
    ensures c == d
  {
  }

  lemma {:induction false} ShiftNInjective(c: bv32, d: bv32, n: nat)
    requires ShiftN(c, n) == ShiftN(d, n)
    ensures c == d
    decreases n
  {
    if n > 0 {
      ShiftNInjective(Shift(c), Shift(d), n - 1);
      ShiftInjective(c, d);
    }
  }

  function Word(b0: Byte, b1: Byte, b2: Byte, b3: Byte): bv32 {
    b0 as bv32 | (b1 as bv32 << 8) | (b2 as bv32 << 16) | (b3 as bv32 << 24)
  }

  function ShiftWord(c: bv32): bv32 {
    ShiftN(ShiftN(ShiftN(ShiftN(c, 8), 8), 8), 8)
  }

  /** Four bytes divided one after the other are one little-endian word xored in and divided at once. */
  lemma {:induction false} FourBytesAreOneWord(c: bv32, b0: Byte, b1: Byte, b2: Byte, b3: Byte)
    ensures Register(c, [b0, b1, b2, b3]) == ShiftWord(Xor(c, Word(b0, b1, b2, b3)))
  {
    hide ShiftN, FeedByte, Xor, Tail, Word, Enter, Down;
    var s := [b0, b1, b2, b3];
    assert s[..3] == [b0, b1, b2] && [b0, b1, b2][..2] == [b0, b1] && [b0, b1][..1] == [b0] && [b0][..0] == [];
    assert Register(c, []) == c;
    var c1 := Register(c, [b0]);
    var c2 := Register(c, [b0, b1]);
    var c3 := Register(c, [b0, b1, b2]);
    FeedByteIsShiftN(c, b0);
    FeedByteIsShiftN(c1, b1);
    FeedByteIsShiftN(c2, b2);
    FeedByteIsShiftN(c3, b3);
    assert c1 == FeedByte(c, b0) && c2 == FeedByte(c1, b1) && c3 == FeedByte(c2, b2) && Register(c, s) == FeedByte(c3, b3);
    var t1, t2, t3 := Tail(b1, b2, b3), Tail(b2, b3, 0), Tail(b3, 0, 0);
    WordParts(c, b0, b1, b2, b3);
    TailParts(c1, b1, b2, b3);
    TailParts(c2, b2, b3, 0);
    TailParts(c3, b3, 0, 0);
    TailParts(Enter(c3, b3), 0, 0, 0);
    ShiftNAbsorbsLater(Enter(c, b0), t1);
    ShiftNAbsorbsLater(Enter(c1, b1), t2);
    ShiftNAbsorbsLater(Enter(c2, b2), t3);
  }

  /** Up to three bytes that follow the current one, waiting above it. */
  function Tail(b1: Byte, b2: Byte, b3: Byte): bv32 {
    (b1 as bv32 << 8) | (b2 as bv32 << 16) | (b3 as bv32 << 24)
  }

  lemma WordParts(c: bv32, b0: Byte, b1: Byte, b2: Byte, b3: Byte)
    ensures Xor(c, Word(b0, b1, b2, b3)) == Xor(Enter(c, b0), Tail(b1, b2, b3))
  {
    hide Word, Tail;
    var t := Tail(b1, b2, b3);
    assert Word(b0, b1, b2, b3) == Xor(b0 as bv32, t) by { WordIsXor(b0, b1, b2, b3); }
    assert Xor(c, Xor(b0 as bv32, t)) == Xor(Enter(c, b0), t);
  }

  lemma WordIsXor(b0: Byte, b1: Byte, b2: Byte, b3: Byte)
    ensures Word(b0, b1, b2, b3) == Xor(b0 as bv32, Tail(b1, b2, b3))
  {
  }

  lemma TailParts(c: bv32, b1: Byte, b2: Byte, b3: Byte)
    ensures Tail(b1, b2, b3) & 0xFF == 0
    ensures Xor(c, Down(Tail(b1, b2, b3))) == Xor(Enter(c, b1), Tail(b2, b3, 0))
    ensures Tail(0, 0, 0) == 0 && Xor(c, 0) == c
  {
  }

  lemma WordInjective(c: bv32, b0: Byte, b1: Byte, b2: Byte, b3: Byte, d0: Byte, d1: Byte, d2: Byte, d3: Byte)
    requires Xor(c, Word(b0, b1, b2, b3)) == Xor(c, Word(d0, d1, d2, d3))
    ensures b0 == d0 && b1 == d1 && b2 == d2 && b3 == d3
  {
    hide Xor, Word;
    XorCancels(c, Word(b0, b1, b2, b3), Word(d0, d1, d2, d3));
    WordBytes(b0, b1, b2, b3);
    WordBytes(d0, d1, d2, d3);
  }

  lemma XorCancels(c: bv32, x: bv32, y: bv32)
    requires Xor(c, x) == Xor(c, y)
    ensures x == y
  {
    hide Xor;
    XorTwice(c, x);
    XorTwice(c, y);
  }

  lemma XorTwice(c: bv32, x: bv32)
    ensures Xor(c, Xor(c, x)) == x
  {
  }

  lemma WordBytes(b0: Byte, b1: Byte, b2: Byte, b3: Byte)
    ensures var w := Word(b0, b1, b2, b3);
            && (w & 0xFF) as Byte == b0 && ((w >> 8) & 0xFF) as Byte == b1
            && ((w >> 16) & 0xFF) as Byte == b2 && (w >> 24) as Byte == b3
  {
  }

  /** From one register value, different four-byte inputs lead to different registers. */
  lemma FourBytesInjective(c: bv32, u: Bytes, v: Bytes)
    requires |u| == |v| == 4
    requires Register(c, u) == Register(c, v)
    ensures u == v
  {
    hide ShiftWord, FeedByte, Word, Xor;
    assert u == [u[0], u[1], u[2], u[3]] && v == [v[0], v[1], v[2], v[3]];
    FourBytesAreOneWord(c, u[0], u[1], u[2], u[3]);
    FourBytesAreOneWord(c, v[0], v[1], v[2], v[3]);
    ShiftWordInjective(Xor(c, Word(u[0], u[1], u[2], u[3])), Xor(c, Word(v[0], v[1], v[2], v[3])));
    WordInjective(c, u[0], u[1], u[2], u[3], v[0], v[1], v[2], v[3]);
  }

  lemma ShiftWordInjective(x: bv32, y: bv32)
    requires ShiftWord(x) == ShiftWord(y)
    ensures x == y
  {
    hide ShiftN;
    ShiftNInjective(ShiftN(ShiftN(ShiftN(x, 8), 8), 8), ShiftN(ShiftN(ShiftN(y, 8), 8), 8), 8);
    ShiftNInjective(ShiftN(ShiftN(x, 8), 8), ShiftN(ShiftN(y, 8), 8), 8);
    ShiftNInjective(ShiftN(x, 8), ShiftN(y, 8), 8);
    ShiftNInjective(x, y, 8);
  }

  /** Feeding one and the same byte keeps different registers different. */
  lemma FeedByteInjective(c: bv32, d: bv32, b: Byte)
    requires FeedByte(c, b) == FeedByte(d, b)
    ensures c == d
  {
    hide ShiftN, FeedByte, Enter;
    FeedByteIsShiftN(c, b);
    FeedByteIsShiftN(d, b);
    ShiftNInjective(Enter(c, b), Enter(d, b), 8);
    EnterCancels(c, d, b);
  }

  lemma EnterCancels(c: bv32, d: bv32, b: Byte)
    requires Enter(c, b) == Enter(d, b)
    ensures c == d
  {
    hide Enter;
    EnterTwice(c, b);
    EnterTwice(d, b);
  }

  lemma EnterTwice(c: bv32, b: Byte)
    ensures Enter(Enter(c, b), b) == c
  {
  }

  lemma {:induction false} RegisterInjective(c: bv32, d: bv32, s: Bytes)
    requires Register(c, s) == Register(d, s)
    ensures c == d
  {
    hide FeedByte;
    if s != [] {
      var n := |s| - 1;
      FeedByteInjective(Register(c, s[..n]), Register(d, s[..n]), s[n]);
      RegisterInjective(c, d, s[..n]);
    }
  }

  lemma BurstCollision(before: Bytes, u: Bytes, v: Bytes, after: Bytes)
    requires |u| == |v| <= 4
    requires Crc32(before + u + after) == Crc32(before + v + after)
    ensures u == v
  {
    hide FeedByte, Complement;
    var init := 0xFFFF_FFFF;
    ComplementCancels(Register(init, before + u + after), Register(init, before + v + after));
    RegisterConcat(init, before + u, after);
    RegisterConcat(init, before + v, after);
    RegisterInjective(Register(init, before + u), Register(init, before + v), after);
    RegisterConcat(init, before, u);
    RegisterConcat(init, before, v);
    var c := Register(init, before);
    var pad := seq(4 - |u|, _ => 0 as Byte);
    RegisterConcat(c, u, pad);
    RegisterConcat(c, v, pad);
    FourBytesInjective(c, u + pad, v + pad);
    assert u == (u + pad)[..|u|] && v == (v + pad)[..|v|];
  }

  /** Two messages that differ only inside a window of at most four bytes always have different CRCs. */
  lemma BurstDetected(before: Bytes, u: Bytes, v: Bytes, after: Bytes)
    requires |u| == |v| <= 4 && u != v
    ensures Crc32(before + u + after) != Crc32(before + v + after)
  {
    if Crc32(before + u + after) == Crc32(before + v + after) {
      BurstCollision(before, u, v, after);
    }
  }

  lemma ComplementCancels(x: bv32, y: bv32)
    requires Complement(x) == Complement(y)
    ensures x == y
  {
    hide Complement;
    ComplementTwice(x);
    ComplementTwice(y);
  }

  lemma ComplementTwice(x: bv32)
    ensures Complement(Complement(x)) == x
  {
  }

  // ---------------------------------------------------------------------------------------------
  // CRC-8

  /** x^8 + x^2 + x + 1, reflected. */
  const CRC8_POLY: Byte := 0xE0

  function Shift1(c: Byte): Byte {
    if c & 1 == 1 then (c >> 1) ^ CRC8_POLY else c >> 1
  }

  /** One division step that takes in one message bit. */
  function FeedBit8(c: Byte, bit: bv1): Byte {
    if (c & 1) as bv1 != bit then (c >> 1) ^ CRC8_POLY else c >> 1
  }

  function FeedBits8(c: Byte, b: Byte, n: nat): Byte
    decreases n
  {
    if n == 0 then c else FeedBits8(FeedBit8(c, (b & 1) as bv1), b >> 1, n - 1)
  }

  function FeedByte8(c: Byte, b: Byte): Byte {
    FeedBits8(c, b, 8)
  }

  /** The CRC-8 register after the whole buffer has been divided, bit by bit. */
  function Register8(c: Byte, buf: Bytes): Byte {
    if buf == [] then c else FeedByte8(Register8(c, buf[..|buf| - 1]), buf[|buf| - 1])
  }

  function Crc8Table(i: Byte): Byte {
    match i >> 4
    case 0 => (match i & 15
      case  0 => 0x00 case  1 => 0x91 case  2 => 0xE3 case  3 => 0x72 case  4 => 0x07 case  5 => 0x96 case  6 => 0xE4 case  7 => 0x75
      case  8 => 0x0E case  9 => 0x9F case 10 => 0xED case 11 => 0x7C case 12 => 0x09 case 13 => 0x98 case 14 => 0xEA case 15 => 0x7B)
    case 1 => (match i & 15
      case  0 => 0x1C case  1 => 0x8D case  2 => 0xFF case  3 => 0x6E case  4 => 0x1B case  5 => 0x8A case  6 => 0xF8 case  7 => 0x69
      case  8 => 0x12 case  9 => 0x83 case 10 => 0xF1 case 11 => 0x60 case 12 => 0x15 case 13 => 0x84 case 14 => 0xF6 case 15 => 0x67)
    case 2 => (match i & 15
      case  0 => 0x38 case  1 => 0xA9 case  2 => 0xDB case  3 => 0x4A case  4 => 0x3F case  5 => 0xAE case  6 => 0xDC case  7 => 0x4D
      case  8 => 0x36 case  9 => 0xA7 case 10 => 0xD5 case 11 => 0x44 case 12 => 0x31 case 13 => 0xA0 case 14 => 0xD2 case 15 => 0x43)
    case 3 => (match i & 15
      case  0 => 0x24 case  1 => 0xB5 case  2 => 0xC7 case  3 => 0x56 case  4 => 0x23 case  5 => 0xB2 case  6 => 0xC0 case  7 => 0x51
      case  8 => 0x2A case  9 => 0xBB case 10 => 0xC9 case 11 => 0x58 case 12 => 0x2D case 13 => 0xBC case 14 => 0xCE case 15 => 0x5F)
    case 4 => (match i & 15
      case  0 => 0x70 case  1 => 0xE1 case  2 => 0x93 case  3 => 0x02 case  4 => 0x77 case  5 => 0xE6 case  6 => 0x94 case  7 => 0x05
      case  8 => 0x7E case  9 => 0xEF case 10 => 0x9D case 11 => 0x0C case 12 => 0x79 case 13 => 0xE8 case 14 => 0x9A case 15 => 0x0B)
    case 5 => (match i & 15
      case  0 => 0x6C case  1 => 0xFD case  2 => 0x8F case  3 => 0x1E case  4 => 0x6B case  5 => 0xFA case  6 => 0x88 case  7 => 0x19
      case  8 => 0x62 case  9 => 0xF3 case 10 => 0x81 case 11 => 0x10 case 12 => 0x65 case 13 => 0xF4 case 14 => 0x86 case 15 => 0x17)
    case 6 => (match i & 15
      case  0 => 0x48 case  1 => 0xD9 case  2 => 0xAB case  3 => 0x3A case  4 => 0x4F case  5 => 0xDE case  6 => 0xAC case  7 => 0x3D
      case  8 => 0x46 case  9 => 0xD7 case 10 => 0xA5 case 11 => 0x34 case 12 => 0x41 case 13 => 0xD0 case 14 => 0xA2 case 15 => 0x33)
    case 7 => (match i & 15
      case  0 => 0x54 case  1 => 0xC5 case  2 => 0xB7 case  3 => 0x26 case  4 => 0x53 case  5 => 0xC2 case  6 => 0xB0 case  7 => 0x21
      case  8 => 0x5A case  9 => 0xCB case 10 => 0xB9 case 11 => 0x28 case 12 => 0x5D case 13 => 0xCC case 14 => 0xBE case 15 => 0x2F)
    case 8 => (match i & 15
      case  0 => 0xE0 case  1 => 0x71 case  2 => 0x03 case  3 => 0x92 case  4 => 0xE7 case  5 => 0x76 case  6 => 0x04 case  7 => 0x95
      case  8 => 0xEE case  9 => 0x7F case 10 => 0x0D case 11 => 0x9C case 12 => 0xE9 case 13 => 0x78 case 14 => 0x0A case 15 => 0x9B)
    case 9 => (match i & 15
      case  0 => 0xFC case  1 => 0x6D case  2 => 0x1F case  3 => 0x8E case  4 => 0xFB case  5 => 0x6A case  6 => 0x18 case  7 => 0x89
      case  8 => 0xF2 case  9 => 0x63 case 10 => 0x11 case 11 => 0x80 case 12 => 0xF5 case 13 => 0x64 case 14 => 0x16 case 15 => 0x87)
    case 10 => (match i & 15
      case  0 => 0xD8 case  1 => 0x49 case  2 => 0x3B case  3 => 0xAA case  4 => 0xDF case  5 => 0x4E case  6 => 0x3C case  7 => 0xAD
      case  8 => 0xD6 case  9 => 0x47 case 10 => 0x35 case 11 => 0xA4 case 12 => 0xD1 case 13 => 0x40 case 14 => 0x32 case 15 => 0xA3)
    case 11 => (match i & 15
      case  0 => 0xC4 case  1 => 0x55 case  2 => 0x27 case  3 => 0xB6 case  4 => 0xC3 case  5 => 0x52 case  6 => 0x20 case  7 => 0xB1
      case  8 => 0xCA case  9 => 0x5B case 10 => 0x29 case 11 => 0xB8 case 12 => 0xCD case 13 => 0x5C case 14 => 0x2E case 15 => 0xBF)
    case 12 => (match i & 15
      case  0 => 0x90 case  1 => 0x01 case  2 => 0x73 case  3 => 0xE2 case  4 => 0x97 case  5 => 0x06 case  6 => 0x74 case  7 => 0xE5
      case  8 => 0x9E case  9 => 0x0F case 10 => 0x7D case 11 => 0xEC case 12 => 0x99 case 13 => 0x08 case 14 => 0x7A case 15 => 0xEB)
    case 13 => (match i & 15
      case  0 => 0x8C case  1 => 0x1D case  2 => 0x6F case  3 => 0xFE case  4 => 0x8B case  5 => 0x1A case  6 => 0x68 case  7 => 0xF9
      case  8 => 0x82 case  9 => 0x13 case 10 => 0x61 case 11 => 0xF0 case 12 => 0x85 case 13 => 0x14 case 14 => 0x66 case 15 => 0xF7)
    case 14 => (match i & 15
      case  0 => 0xA8 case  1 => 0x39 case  2 => 0x4B case  3 => 0xDA case  4 => 0xAF case  5 => 0x3E case  6 => 0x4C case  7 => 0xDD
      case  8 => 0xA6 case  9 => 0x37 case 10 => 0x45 case 11 => 0xD4 case 12 => 0xA1 case 13 => 0x30 case 14 => 0x42 case 15 => 0xD3)
    case 15 => (match i & 15
      case  0 => 0xB4 case  1 => 0x25 case  2 => 0x57 case  3 => 0xC6 case  4 => 0xB3 case  5 => 0x22 case  6 => 0x50 case  7 => 0xC1
      case  8 => 0xBA case  9 => 0x2B case 10 => 0x59 case 11 => 0xC8 case 12 => 0xBD case 13 => 0x2C case 14 => 0x5E case 15 => 0xCF)
  }

  function ShiftN8(c: Byte, n: nat): Byte
    decreases n
  {
    if n == 0 then c else ShiftN8(Shift1(c), n - 1)
  }

  function Shift8Times(c: Byte): Byte {
    Shift1(Shift1(Shift1(Shift1(Shift1(Shift1(Shift1(Shift1(c))))))))
  }

  lemma LowerHalfOfTable8(i: Byte)
    requires i < 0x80
    ensures Crc8Table(i) == Shift8Times(i)
  {
    match i >> 4
    case 0 =>
    case 1 =>
    case 2 =>
    case 3 =>
    case 4 =>
    case 5 =>
    case 6 =>
    case _ =>
  }

  lemma UpperHalfOfTable8(i: Byte)
    requires i >= 0x80
    ensures Crc8Table(i) == Shift8Times(i)
  {
    match i >> 4
    case 8 =>
    case 9 =>
    case 10 =>
    case 11 =>
    case 12 =>
    case 13 =>
    case 14 =>
    case _ =>
  }

  /** Every one of the 256 table entries is eight division steps of its index. */
  lemma Table8IsEightShifts(i: Byte)
    ensures Crc8Table(i) == ShiftN8(i, 8)
  {
    hide Crc8Table;
    if i < 0x80 { LowerHalfOfTable8(i); } else { UpperHalfOfTable8(i); }
  }

  lemma FeedBit8ThenShift(c: Byte, b: Byte)
    ensures Shift1(c ^ b) == FeedBit8(c, (b & 1) as bv1) ^ (b >> 1)
  {
  }

  lemma {:induction false} FeedBits8IsShiftN8(c: Byte, b: Byte, n: nat)
    requires n <= 8 && HasBits(b, n)
    ensures FeedBits8(c, b, n) == ShiftN8(c ^ b, n)
    decreases n
  {
    if n == 0 {
      assert c ^ 0 == c;
    } else {
      FeedBits8IsShiftN8(FeedBit8(c, (b & 1) as bv1), b >> 1, n - 1);
      FeedBit8ThenShift(c, b);
    }
  }

  lemma Table8Step(c: Byte, b: Byte)
    ensures Crc8Table(c ^ b) == FeedByte8(c, b)
  {
    hide ShiftN8, Crc8Table;
    assert HasBits(b, 8);
    FeedBits8IsShiftN8(c, b, 8);
    Table8IsEightShifts(c ^ b);
  }

  /** The CRC-8 of a whole buffer. */
  function Crc8(initValue: Byte, buf: Bytes): Byte {
    0xFF - Register8(0xFF - initValue, buf)
  }

  /** The register from which shots and a final complement give the CRC-8 of what was shot. */
  method CalcCRC8_ShotInit(initValue: Byte) returns (crc: Byte)
    ensures crc == 0xFF - initValue
    ensures forall buf :: 0xFF - Register8(crc, buf) == Crc8(initValue, buf)
  {
    crc := 0xFF - initValue;
  }

  method CalcCRC8_Shot(data: array<Byte>, from: nat, crc0: Byte, cnt: nat) returns (crc: Byte)
    requires from + cnt <= data.Length
    ensures crc == Register8(crc0, data[from..from + cnt])
  {
    hide Crc8Table, FeedByte8;
    crc := crc0;
    var n := 0;
    while n < cnt
      invariant 0 <= n <= cnt
      invariant crc == Register8(crc0, data[from..from + n])
    {
      Table8Step(crc, data[from + n]);
      assert data[from..from + n + 1][..n] == data[from..from + n];
      crc := Crc8Table(crc ^ data[from + n]);
      n := n + 1;
    }
  }

  method CalcCRC8(data: array<Byte>, cnt: nat, initValue: Byte) returns (crc: Byte)
    requires cnt <= data.Length
    ensures crc == Crc8(initValue, data[..cnt])
  {
    crc := CalcCRC8_ShotInit(initValue);
    crc := CalcCRC8_Shot(data, 0, crc, cnt);
    crc := 0xFF - crc;
  }

  lemma Shift1Injective(c: Byte, d: Byte)
    requires Shift1(c) == Shift1(d)
    ensures c == d
  {
  }

  lemma {:induction false} ShiftN8Injective(c: Byte, d: Byte, n: nat)
    requires ShiftN8(c, n) == ShiftN8(d, n)
    ensures c == d
    decreases n
  {
    if n > 0 {
      ShiftN8Injective(Shift1(c), Shift1(d), n - 1);
      Shift1Injective(c, d);
    }
  }

  function Xor8(a: Byte, b: Byte): Byte {
    a ^ b
  }

  lemma Xor8Twice(a: Byte, b: Byte)
    ensures Xor8(Xor8(a, b), b) == a && Xor8(a, Xor8(a, b)) == b
  {
  }

  lemma FeedByte8IsShiftN8(c: Byte, b: Byte)
    ensures FeedByte8(c, b) == ShiftN8(Xor8(c, b), 8)
  {
    hide ShiftN8;
    assert HasBits(b, 8);
    FeedBits8IsShiftN8(c, b, 8);
  }

  /** The register tells different histories apart, and different next bytes. */
  lemma FeedByte8Injective(c: Byte, d: Byte, a: Byte, b: Byte)
    requires FeedByte8(c, a) == FeedByte8(d, b)
    ensures a == b ==> c == d
    ensures c == d ==> a == b
  {
    hide ShiftN8, FeedByte8, Xor8;
    FeedByte8IsShiftN8(c, a);
    FeedByte8IsShiftN8(d, b);
    ShiftN8Injective(Xor8(c, a), Xor8(d, b), 8);
    Xor8Twice(c, a);
    Xor8Twice(d, b);
  }

  lemma {:induction false} Register8Injective(c: Byte, d: Byte, s: Bytes)
    requires Register8(c, s) == Register8(d, s)
    ensures c == d
  {
    hide FeedByte8;
    if s != [] {
      var n := |s| - 1;
      FeedByte8Injective(Register8(c, s[..n]), Register8(d, s[..n]), s[n], s[n]);
      Register8Injective(c, d, s[..n]);
    }
  }

  lemma {:induction false} Register8Concat(c: Byte, a: Bytes, b: Bytes)
    ensures Register8(c, a + b) == Register8(Register8(c, a), b)
  {
    hide FeedByte8;
    if b == [] {
      assert a + b == a;
    } else {
      var n := |b| - 1;
      assert (a + b)[..|a| + n] == a + b[..n];
      Register8Concat(c, a, b[..n]);
    }
  }

  /** What a run of CalcCRC8_Shot calls leaves in the register. */
  function Shots8(c: Byte, chunks: seq<Bytes>): Byte {
    if chunks == [] then c else Register8(Shots8(c, chunks[..|chunks| - 1]), chunks[|chunks| - 1])
  }

  /** However a message is cut into shots, their register after ShotInit is the complement of CalcCRC8 of the whole. */
  lemma {:induction false} Shots8AreOneBuffer(initValue: Byte, chunks: seq<Bytes>)
    ensures 0xFF - Shots8(0xFF - initValue, chunks) == Crc8(initValue, Flatten(chunks))
  {
    ShotsRegister8(0xFF - initValue, chunks);
  }

  lemma {:induction false} ShotsRegister8(c: Byte, chunks: seq<Bytes>)
    ensures Shots8(c, chunks) == Register8(c, Flatten(chunks))
  {
    hide Register8;
    if chunks == [] {
      NothingFed8(c);
    } else {
      var n := |chunks| - 1;
      ShotsRegister8(c, chunks[..n]);
      Register8Concat(c, Flatten(chunks[..n]), chunks[n]);
    }
  }

  lemma NothingFed8(c: Byte)
    ensures Register8(c, []) == c
  {
  }

  /** A single changed byte always changes the CRC-8 register. */
  lemma ByteChangeDetected8(c: Byte, before: Bytes, a: Byte, b: Byte, after: Bytes)
    requires Register8(c, before + [a] + after) == Register8(c, before + [b] + after)
    ensures a == b
  {
    hide FeedByte8;
    Register8Concat(c, before + [a], after);
    Register8Concat(c, before + [b], after);
    Register8Injective(Register8(c, before + [a]), Register8(c, before + [b]), after);
    assert (before + [a])[..|before|] == before && (before + [b])[..|before|] == before;
    FeedByte8Injective(Register8(c, before), Register8(c, before), a, b);
  }
}
