/** The SHA-256 compression function: section 6.2.2 of FIPS 180-4, and hash256_block of algo/sha256.h. */
module Sha256Block {
  import opened Bytes
  import opened Sha256Words

  /** The eight working variables, or the eight words of a hash value. */
  datatype Digest = Digest(a: bv32, b: bv32, c: bv32, d: bv32, e: bv32, f: bv32, g: bv32, h: bv32)

  const INITIAL := Digest(0x6a09e667, 0xbb67ae85, 0x3c6ef372, 0xa54ff53a, 0x510e527f, 0x9b05688c, 0x1f83d9ab, 0x5be0cd19)

  function AddConstant(i: nat): bv32 {
    match i
    case 0 => 0x428a2f98 case 1 => 0x71374491 case 2 => 0xb5c0fbcf case 3 => 0xe9b5dba5
    case 4 => 0x3956c25b case 5 => 0x59f111f1 case 6 => 0x923f82a4 case 7 => 0xab1c5ed5
    case 8 => 0xd807aa98 case 9 => 0x12835b01 case 10 => 0x243185be case 11 => 0x550c7dc3
    case 12 => 0x72be5d74 case 13 => 0x80deb1fe case 14 => 0x9bdc06a7 case 15 => 0xc19bf174
    case 16 => 0xe49b69c1 case 17 => 0xefbe4786 case 18 => 0x0fc19dc6 case 19 => 0x240ca1cc
    case 20 => 0x2de92c6f case 21 => 0x4a7484aa case 22 => 0x5cb0a9dc case 23 => 0x76f988da
    case 24 => 0x983e5152 case 25 => 0xa831c66d case 26 => 0xb00327c8 case 27 => 0xbf597fc7
    case 28 => 0xc6e00bf3 case 29 => 0xd5a79147 case 30 => 0x06ca6351 case 31 => 0x14292967
    case 32 => 0x27b70a85 case 33 => 0x2e1b2138 case 34 => 0x4d2c6dfc case 35 => 0x53380d13
    case 36 => 0x650a7354 case 37 => 0x766a0abb case 38 => 0x81c2c92e case 39 => 0x92722c85
    case 40 => 0xa2bfe8a1 case 41 => 0xa81a664b case 42 => 0xc24b8b70 case 43 => 0xc76c51a3
    case 44 => 0xd192e819 case 45 => 0xd6990624 case 46 => 0xf40e3585 case 47 => 0x106aa070
    case 48 => 0x19a4c116 case 49 => 0x1e376c08 case 50 => 0x2748774c case 51 => 0x34b0bcb5
    case 52 => 0x391c0cb3 case 53 => 0x4ed8aa4a case 54 => 0x5b9cca4f case 55 => 0x682e6ff3
    case 56 => 0x748f82ee case 57 => 0x78a5636f case 58 => 0x84c87814 case 59 => 0x8cc70208
    case 60 => 0x90befffa case 61 => 0xa4506ceb case 62 => 0xbef9a3f7 case 63 => 0xc67178f2
    case _ => 0
  }

  function WordOf(b0: Byte, b1: Byte, b2: Byte, b3: Byte): bv32 {
    (b0 as bv32 << 24) | (b1 as bv32 << 16) | (b2 as bv32 << 8) | b3 as bv32
  }

  /** The message schedule. */
  function Schedule(block: Bytes, i: nat): bv32
    requires |block| == 64 && i < 64
    decreases i
  {
    if i < 16 then WordOf(block[4 * i], block[4 * i + 1], block[4 * i + 2], block[4 * i + 3])
    else Add32(Add32(Add32(SmallSigma1(Schedule(block, i - 2)), Schedule(block, i - 7)),
                     SmallSigma0(Schedule(block, i - 15))), Schedule(block, i - 16))
  }

  function Round(s: Digest, k: bv32, w: bv32): Digest {
    var t1 := Add32(Add32(Add32(Add32(s.h, BigSigma1(s.e)), Ch32(s.e, s.f, s.g)), k), w);
    var t2 := Add32(BigSigma0(s.a), Maj32(s.a, s.b, s.c));
    Digest(Add32(t1, t2), s.a, s.b, s.c, Add32(s.d, t1), s.e, s.f, s.g)
  }

  function RoundsUpTo(s: Digest, block: Bytes, i: nat): Digest
    requires |block| == 64 && i <= 64
    decreases i
  {
    if i == 0 then s else Round(RoundsUpTo(s, block, i - 1), AddConstant(i - 1), Schedule(block, i - 1))
  }

  function Sum(s: Digest, t: Digest): Digest {
    Digest(Add32(s.a, t.a), Add32(s.b, t.b), Add32(s.c, t.c), Add32(s.d, t.d),
           Add32(s.e, t.e), Add32(s.f, t.f), Add32(s.g, t.g), Add32(s.h, t.h))
  }

  function Compress(s: Digest, block: Bytes): Digest
    requires |block| == 64
  {
    Sum(s, RoundsUpTo(s, block, 64))
  }

  // ---------------------------------------------------------------------------------------------
  // The source: 64-bit words in an array

  /** The array the source keeps for a hash value. */
  function Widened(s: Digest): (w: seq<bv64>)
    ensures |w| == 8
  {
    [Wide(s.a), Wide(s.b), Wide(s.c), Wide(s.d), Wide(s.e), Wide(s.f), Wide(s.g), Wide(s.h)]
  }

  function WordOf64(b0: Byte, b1: Byte, b2: Byte, b3: Byte): bv64 {
    (b0 as bv64 << 24) | (b1 as bv64 << 16) | (b2 as bv64 << 8) | b3 as bv64
  }

  lemma WordOfRefines(b0: Byte, b1: Byte, b2: Byte, b3: Byte)
    ensures WordOf64(b0, b1, b2, b3) == Wide(WordOf(b0, b1, b2, b3))
  {
  }

  /** A masked 64-bit sum of two words that hold 32 bits, or of such sums. */
  lemma SumRefines(x: bv64, y: bv64)
    ensures Mask32(Add64(x, y)) == Wide(Add32(Low(x), Low(y)))
    ensures Low(Add64(x, y)) == Add32(Low(x), Low(y))
  {
    hide *;
    MaskIsLow(Add64(x, y));
    LowOfSum(x, y);
  }

  lemma ScheduleStep(a: bv32, b: bv32, c: bv32, d: bv32)
    ensures Mask32(Add64(Add64(Add64(SSig1(Wide(a)), Wide(b)), SSig0(Wide(c))), Wide(d)))
         == Wide(Add32(Add32(Add32(SmallSigma1(a), b), SmallSigma0(c)), d))
  {
    hide *;
    SSig1Refines(a);
    SSig0Refines(c);
    LowOfWide(SmallSigma1(a));
    LowOfWide(b);
    LowOfWide(SmallSigma0(c));
    LowOfWide(d);
    var x := Add64(SSig1(Wide(a)), Wide(b));
    var y := Add64(x, SSig0(Wide(c)));
    SumRefines(SSig1(Wide(a)), Wide(b));
    SumRefines(x, SSig0(Wide(c)));
    SumRefines(y, Wide(d));
  }

  function Temp1(e: bv64, f: bv64, g: bv64, h: bv64, k: bv64, w: bv64): bv64 {
    Add64(Add64(Add64(Add64(h, BSig1(e)), Ch(e, f, g)), k), w)
  }

  function Temp2(a: bv64, b: bv64, c: bv64): bv64 {
    Add64(BSig0(a), Maj(a, b, c))
  }

  /** The unmasked 64-bit sums of one round agree with the 32-bit ones modulo 2^32. */
  lemma TempsRefine(s: Digest, k: bv32, w: bv32)
    ensures Low(Temp1(Wide(s.e), Wide(s.f), Wide(s.g), Wide(s.h), Wide(k), Wide(w)))
         == Add32(Add32(Add32(Add32(s.h, BigSigma1(s.e)), Ch32(s.e, s.f, s.g)), k), w)
    ensures Low(Temp2(Wide(s.a), Wide(s.b), Wide(s.c))) == Add32(BigSigma0(s.a), Maj32(s.a, s.b, s.c))
  {
    hide Add32, Add64, BSig0, BSig1, Ch, Maj, BigSigma0, BigSigma1, Ch32, Maj32, Wide, Low;
    BSig1Refines(s.e);
    BSig0Refines(s.a);
    LogicRefines(s.e, s.f, s.g);
    LogicRefines(s.a, s.b, s.c);
    LowOfWide(s.h);
    LowOfWide(BigSigma1(s.e));
    LowOfWide(Ch32(s.e, s.f, s.g));
    LowOfWide(k);
    LowOfWide(w);
    LowOfWide(BigSigma0(s.a));
    LowOfWide(Maj32(s.a, s.b, s.c));
    var x := Add64(Wide(s.h), BSig1(Wide(s.e)));
    var y := Add64(x, Ch(Wide(s.e), Wide(s.f), Wide(s.g)));
    var z := Add64(y, Wide(k));
    LowOfSum(Wide(s.h), BSig1(Wide(s.e)));
    LowOfSum(x, Ch(Wide(s.e), Wide(s.f), Wide(s.g)));
    LowOfSum(y, Wide(k));
    LowOfSum(z, Wide(w));
    LowOfSum(BSig0(Wide(s.a)), Maj(Wide(s.a), Wide(s.b), Wide(s.c)));
  }

  lemma RoundRefines(s: Digest, k: bv32, w: bv32)
    ensures var t1 := Temp1(Wide(s.e), Wide(s.f), Wide(s.g), Wide(s.h), Wide(k), Wide(w));
            var t2 := Temp2(Wide(s.a), Wide(s.b), Wide(s.c));
            var r := Round(s, k, w);
            Mask32(Add64(t1, t2)) == Wide(r.a) && Mask32(Add64(Wide(s.d), t1)) == Wide(r.e)
  {
    hide Add32, Add64, Temp1, Temp2, BigSigma0, BigSigma1, Ch32, Maj32, Wide, Low, Mask32;
    TempsRefine(s, k, w);
    var t1 := Temp1(Wide(s.e), Wide(s.f), Wide(s.g), Wide(s.h), Wide(k), Wide(w));
    var t2 := Temp2(Wide(s.a), Wide(s.b), Wide(s.c));
    SumRefines(t1, t2);
    SumRefines(Wide(s.d), t1);
    LowOfWide(s.d);
  }

  lemma ScheduleUnfold(block: Bytes, i: nat)
    requires |block| == 64 && i < 64
    ensures i < 16 ==>
      WordOf64(block[i * 4], block[i * 4 + 1], block[i * 4 + 2], block[i * 4 + 3]) == Wide(Schedule(block, i))
    ensures i >= 16 ==>
      var a, b, c, d := Schedule(block, i - 2), Schedule(block, i - 7), Schedule(block, i - 15), Schedule(block, i - 16);
      Mask32(Add64(Add64(Add64(SSig1(Wide(a)), Wide(b)), SSig0(Wide(c))), Wide(d))) == Wide(Schedule(block, i))
  {
    hide Wide, WordOf, WordOf64, Add32, Add64, Mask32, SSig0, SSig1, SmallSigma0, SmallSigma1;
    if i < 16 {
      WordOfRefines(block[i * 4], block[i * 4 + 1], block[i * 4 + 2], block[i * 4 + 3]);
    } else {
      ScheduleStep(Schedule(block, i - 2), Schedule(block, i - 7), Schedule(block, i - 15), Schedule(block, i - 16));
    }
  }

  /** Fills the message schedule. */
  method ExpandMessage(block: Bytes, w: array<bv64>)
    requires |block| == 64 && w.Length == 64
    modifies w
    ensures forall k :: 0 <= k < 64 ==> w[k] == Wide(Schedule(block, k))
  {
    hide Wide, WordOf64, Add64, Mask32, SSig0, SSig1, Schedule;
    var i := 0;
    while i < 16
      invariant 0 <= i <= 16
      invariant forall k :: 0 <= k < i ==> w[k] == Wide(Schedule(block, k))
    {
      w[i] := WordOf64(block[i * 4], block[i * 4 + 1], block[i * 4 + 2], block[i * 4 + 3]);
      ScheduleUnfold(block, i);
      i := i + 1;
    }
    while i < 64
      invariant 16 <= i <= 64
      invariant forall k :: 0 <= k < i ==> w[k] == Wide(Schedule(block, k))
    {
      ScheduleUnfold(block, i);
      w[i] := Mask32(Add64(Add64(Add64(SSig1(w[i - 2]), w[i - 7]), SSig0(w[i - 15])), w[i - 16]));
      i := i + 1;
    }
  }

  /** Compresses one block into the hash value. */
  method Hash256Block(messageDigest: array<bv64>, block: Bytes, ghost s: Digest)
    requires messageDigest.Length == 8 && |block| == 64
    requires messageDigest[..] == Widened(s)
    modifies messageDigest
    ensures messageDigest[..] == Widened(Compress(s, block))
  {
    hide Wide, Low, Add32, Add64, Mask32, Temp1, Temp2, Schedule, AddConstant, Round;
    var w := new bv64[64];
    ExpandMessage(block, w);
    var a, b, c, d := messageDigest[0], messageDigest[1], messageDigest[2], messageDigest[3];
    var e, f, g, h := messageDigest[4], messageDigest[5], messageDigest[6], messageDigest[7];
    ghost var r := s;
    var i := 0;
    while i < 64
      invariant 0 <= i <= 64
      invariant forall k :: 0 <= k < 64 ==> w[k] == Wide(Schedule(block, k))
      invariant messageDigest[..] == Widened(s)
      invariant r == RoundsUpTo(s, block, i)
      invariant a == Wide(r.a) && b == Wide(r.b) && c == Wide(r.c) && d == Wide(r.d)
      invariant e == Wide(r.e) && f == Wide(r.f) && g == Wide(r.g) && h == Wide(r.h)
    {
      RoundRefines(r, AddConstant(i), Schedule(block, i));
      RoundShifts(r, AddConstant(i), Schedule(block, i));
      var temp1 := Temp1(e, f, g, h, Wide(AddConstant(i)), w[i]);
      var temp2 := Temp2(a, b, c);
      h := g;
      g := f;
      f := e;
      e := Mask32(Add64(d, temp1));
      d := c;
      c := b;
      b := a;
      a := Mask32(Add64(temp1, temp2));
      r := Round(r, AddConstant(i), Schedule(block, i));
      i := i + 1;
    }
    AddInto(messageDigest, [a, b, c, d, e, f, g, h], s, r);
  }

  lemma RoundShifts(s: Digest, k: bv32, w: bv32)
    ensures var r := Round(s, k, w);
            r.b == s.a && r.c == s.b && r.d == s.c && r.f == s.e && r.g == s.f && r.h == s.g
  {
  }

  /** The working variables are added to the hash value, which is then cut back to 32 bits. */
  method AddInto(messageDigest: array<bv64>, v: seq<bv64>, ghost s: Digest, ghost r: Digest)
    requires messageDigest.Length == 8 && |v| == 8
    requires messageDigest[..] == Widened(s) && v == Widened(r)
    modifies messageDigest
    ensures messageDigest[..] == Widened(Sum(s, r))
  {
    hide Wide, Low, Add32, Add64, Mask32, Widened;
    ghost var was := messageDigest[..];
    AddAll(messageDigest, v);
    MaskAll(messageDigest);
    ghost var total := Widened(Sum(s, r));
    forall k | 0 <= k < 8
      ensures messageDigest[k] == total[k]
    {
      MaskedSum(s, r, k);
    }
  }

  method AddAll(a: array<bv64>, v: seq<bv64>)
    requires a.Length == 8 && |v| == 8
    modifies a
    ensures forall k :: 0 <= k < 8 ==> a[k] == Add64(old(a[k]), v[k])
  {
    hide Add64;
    for i := 0 to 8
      invariant forall k :: 0 <= k < 8 ==> a[k] == if k < i then Add64(old(a[k]), v[k]) else old(a[k])
    {
      a[i] := Add64(a[i], v[i]);
    }
  }

  method MaskAll(a: array<bv64>)
    requires a.Length == 8
    modifies a
    ensures forall k :: 0 <= k < 8 ==> a[k] == Mask32(old(a[k]))
  {
    hide Mask32;
    for i := 0 to 8
      invariant forall k :: 0 <= k < 8 ==> a[k] == if k < i then Mask32(old(a[k])) else old(a[k])
    {
      a[i] := Mask32(a[i]);
    }
  }

  function WordAt(s: Digest, i: nat): bv32
    requires i < 8
  {
    match i
    case 0 => s.a case 1 => s.b case 2 => s.c case 3 => s.d
    case 4 => s.e case 5 => s.f case 6 => s.g case _ => s.h
  }

  lemma WidenedAt(s: Digest, i: nat)
    requires i < 8
    ensures Widened(s)[i] == Wide(WordAt(s, i))
  {
    hide Wide;
    match i {
      case 0 => case 1 => case 2 => case 3 => case 4 => case 5 => case 6 => case _ =>
    }
  }

  lemma SumAt(s: Digest, r: Digest, i: nat)
    requires i < 8
    ensures WordAt(Sum(s, r), i) == Add32(WordAt(s, i), WordAt(r, i))
  {
    hide Add32;
  }

  lemma MaskedSum(s: Digest, r: Digest, i: nat)
    requires i < 8
    ensures Mask32(Add64(Widened(s)[i], Widened(r)[i])) == Widened(Sum(s, r))[i]
  {
    hide Wide, Low, Add32, Add64, Mask32, Widened, WordAt, Sum;
    assert WordAt(Sum(s, r), i) == Add32(WordAt(s, i), WordAt(r, i)) by { SumAt(s, r, i); }
    WidenedAt(s, i);
    WidenedAt(r, i);
    WidenedAt(Sum(s, r), i);
    SumRefines(Wide(WordAt(s, i)), Wide(WordAt(r, i)));
    LowOfWide(WordAt(s, i));
    LowOfWide(WordAt(r, i));
  }
}
