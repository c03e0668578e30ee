/** SHA-256 over whole messages: the padding of section 5.1.1 of FIPS 180-4, and the incremental hasher of
    algo/sha256.h. */
module Sha256 {
  import opened Bytes
  import opened Blocks
  import opened Sha256Words
  import opened Sha256Length
  import opened Sha256Block

  // ---------------------------------------------------------------------------------------------
  // The standard

  /** The message, a one bit, zeros, and the length of the message in bits. */
  function Padded(m: Bytes): (r: Bytes)
    ensures |r| % 64 == 0
  {
    m + [0x80] + Zeros(ZeroCount(|m|)) + BigEndian(8 * |m|, 8)
  }

  /** Compresses the blocks of m one after the other. */
  function HashBlocks(s: Digest, m: Bytes): Digest
    requires |m| % 64 == 0
    decreases |m|
  {
    if m == [] then s else Compress(HashBlocks(s, m[..|m| - 64]), m[|m| - 64..])
  }

  function HashValue(m: Bytes): Digest {
    HashBlocks(INITIAL, Padded(m))
  }

  // ---------------------------------------------------------------------------------------------
  // Lemmas on blocks

  lemma HashOneMore(s: Digest, m: Bytes, block: Bytes)
    requires |m| % 64 == 0 && |block| == 64
    ensures |m + block| % 64 == 0 && HashBlocks(s, m + block) == Compress(HashBlocks(s, m), block)
  {
    hide Compress;
    assert (m + block)[..|m + block| - 64] == m && (m + block)[|m + block| - 64..] == block;
  }

  // ---------------------------------------------------------------------------------------------
  // The hasher

  class Hash256OneByOne {
    var buffer: Bytes
    const digits: array<nat>
    const h: array<bv64>
    ghost var absorbed: Bytes

    ghost predicate Valid()
      reads this, digits, h
    {
      && digits.Length == 4 && h.Length == 8
      && Digits16(digits[..]) && DigitsValue(digits[..]) == |absorbed| % TWO64
      && buffer == Rest(absorbed)
      && h[..] == Widened(HashBlocks(INITIAL, Whole(absorbed)))
    }

    constructor ()
      ensures Valid() && fresh(digits) && fresh(h) && absorbed == []
    {
      buffer := [];
      digits := new nat[4](_ => 0);
      h := new bv64[8];
      absorbed := [];
      new;
      h[0], h[1], h[2], h[3] := Wide(INITIAL.a), Wide(INITIAL.b), Wide(INITIAL.c), Wide(INITIAL.d);
      h[4], h[5], h[6], h[7] := Wide(INITIAL.e), Wide(INITIAL.f), Wide(INITIAL.g), Wide(INITIAL.h);
      assert digits[..] == [0, 0, 0, 0];
      assert Whole([]) == [];
      assert h[..] == Widened(INITIAL);
    }

    /** Adds n to the counter modulo 2^64. */
    method AddToDataLength(n: nat)
      requires digits.Length == 4 && Digits16(digits[..]) && n < 0x8000_0000_0000_0000
      modifies digits
      ensures Digits16(digits[..])
      ensures DigitsValue(digits[..]) == (old(DigitsValue(digits[..])) + n) % TWO64
    {
      hide DigitsValue, Weighted;
      WeightedZero();
      ghost var total := DigitsValue(digits[..]) + n;
      var carry: nat := 0;
      assert DigitsValue(digits[..]) < TWO64 by { DigitsFit(digits[..]); }
      AddFirst(digits[..], n);
      digits[0] := digits[0] + n;
      var i := 0;
      ghost var left: nat := 0;
      while i < 4
        invariant 0 <= i <= 4 && left == carry
        invariant i == 0 ==> carry == 0
        invariant SmallExcept(digits[..], i)
        invariant DigitsValue(digits[..]) + Weighted(carry, i) == total
      {
        ghost var d := digits[..];
        AddAtDigit(d, i, carry);
        digits[i] := digits[i] + carry;
        assert digits[..] == d[i := d[i] + carry];
        if digits[i] >= 65536 {
          carry := digits[i] / 65536;
          CarryMoves(digits[..], i, digits[i]);
          ghost var before := digits[..];
          digits[i] := digits[i] % 65536;
          assert digits[..] == before[i := before[i] % 65536] && before[i := before[i]] == before;
          left := carry;
        } else {
          left := 0;
          break;
        }
        i := i + 1;
      }
      CarryLeaves(digits[..], total, left);
    }

    /** Takes in one more piece of the message; any cut of the message into pieces leads to the same state. */
    method Process(input: Bytes)
      requires Valid() && |input| < 0x8000_0000_0000_0000
      modifies this, digits, h
      ensures Valid() && absorbed == old(absorbed) + input
    {
      hide Compress, DigitsValue, Digits16, HashBlocks, HashUpTo, Whole, Rest, Widened;
      LengthAdds(|absorbed|, |input|);
      AddToDataLength(|input|);
      ghost var whole := Whole(absorbed);
      buffer := buffer + input;
      ghost var b := buffer;
      HashUpToEnds(whole, b, 0);
      var i := 0;
      while i + 64 <= |buffer|
        invariant 0 <= i <= |b| && i % 64 == 0 && buffer == b
        invariant h[..] == Widened(HashUpTo(whole, b, i))
        invariant Digits16(digits[..]) && DigitsValue(digits[..]) == (|absorbed| + |input|) % TWO64
        invariant absorbed == old(absorbed)
      {
        BlockTaken(whole, b, i);
        Hash256Block(h, buffer[i..i + 64], HashUpTo(whole, b, i));
        i := i + 64;
      }
      HashUpToEnds(whole, b, i);
      PieceTaken(absorbed, input, i);
      buffer := buffer[i..];
      absorbed := absorbed + input;
    }

    /** Appends marker, zeros and length, and compresses what that completes. */
    method Finish()
      requires Valid()
      modifies h
      ensures h.Length == 8 && h[..] == Widened(HashValue(absorbed))
    {
      hide Compress, DigitsValue, Digits16, BigEndian, HashBlocks, HashValue, Whole, Rest, Widened;
      var remains := |buffer|;
      var temp := RemainsAndMarker();
      ghost var s := HashBlocks(INITIAL, Whole(absorbed));
      ghost var tail := BigEndian(8 * |absorbed|, 8);
      if remains > 55 {
        PaddedLong(absorbed);
        Fill(temp, remains + 1, 64, 0);
        assert temp[..] == Marked(buffer, 63 - remains);
        Hash256Block(h, temp[..], s);
        Fill(temp, 0, 60, 0);
        WriteDataBitLength(temp, 56);
        assert temp[..] == temp[..56] + temp[56..] == Zeros(56) + tail;
        Hash256Block(h, temp[..], Compress(s, Marked(buffer, 63 - remains)));
      } else {
        PaddedShort(absorbed);
        Fill(temp, remains + 1, 60, 0);
        WriteDataBitLength(temp, 56);
        assert temp[..] == temp[..56] + temp[56..];
        assert temp[..56] == Marked(buffer, 55 - remains);
        Hash256Block(h, temp[..], s);
      }
    }

    /** A block that starts with the unprocessed bytes and the marker and is zero behind. */
    method RemainsAndMarker() returns (temp: array<Byte>)
      requires |buffer| < 64
      ensures fresh(temp) && temp.Length == 64 && temp[..] == Marked(buffer, 63 - |buffer|)
    {
      var remains := |buffer|;
      temp := new Byte[64](_ => 0);
      var k := 0;
      while k < remains
        invariant 0 <= k <= remains
        invariant temp[..k] == buffer[..k]
        invariant temp[k..] == Zeros(64 - k)
      {
        temp[k] := buffer[k];
        k := k + 1;
      }
      temp[remains] := 0x80;
    }

    /** Writes as much of the 32-byte digest as the output has room for. */
    method GetHashBytes(out: array<Byte>, ghost s: Digest)
      requires h.Length == 8 && h[..] == Widened(s)
      modifies out
      ensures var n := if out.Length < 32 then out.Length else 32;
              out[..n] == DigestBytes(s)[..n] && out[n..] == old(out[n..])
    {
      hide DigestBytes, ByteOf64, Widened;
      ghost var d := DigestBytes(s);
      ghost var was := out[..];
      var first := 0;
      var k := 0;
      while k < 8
        invariant 0 <= k <= 8
        invariant first == if out.Length < 4 * k then out.Length else 4 * k
        invariant out[..first] == d[..first] && out[first..] == was[first..]
      {
        var i := 0;
        while i < 4 && first != out.Length
          invariant 0 <= i <= 4
          invariant first == if out.Length < 4 * k + i then out.Length else 4 * k + i
          invariant out[..first] == d[..first] && out[first..] == was[first..]
        {
          DigestByteAt(s, k, i);
          OneMore(out[..], d, was, first);
          ghost var before := out[..];
          out[first] := ByteOf64(h[k], i);
          assert out[..] == before[first := d[first]];
          first := first + 1;
          i := i + 1;
        }
        k := k + 1;
      }
    }

    static method Fill(a: array<Byte>, from: nat, to: nat, v: Byte)
      requires from <= to <= a.Length
      modifies a
      ensures forall j :: 0 <= j < a.Length ==> a[j] == if from <= j < to then v else old(a[j])
    {
      var i := from;
      while i < to
        invariant from <= i <= to
        invariant forall j :: 0 <= j < a.Length ==> a[j] == if from <= j < i then v else old(a[j])
      {
        a[i] := v;
        i := i + 1;
      }
    }

    /** Writes eight times the counter, modulo 2^64, big-endian. */
    method WriteDataBitLength(temp: array<Byte>, begin: nat)
      requires digits.Length == 4 && Digits16(digits[..]) && DigitsValue(digits[..]) == |absorbed| % TWO64
      requires begin + 8 == temp.Length
      modifies temp
      ensures temp[..begin] == old(temp[..begin]) && temp[begin..] == BigEndian(8 * |absorbed|, 8)
    {
      hide ByteOf, BigEndian, DigitsValue;
      var e := BitDigits();
      BigEndian64Modulo(8 * |absorbed|);
      EightTimesModulo(|absorbed|);
      BigEndianNothing();
      var p := begin;
      var i := 3;
      while i >= 0
        invariant -1 <= i <= 3 && p == begin + 2 * (3 - i)
        invariant temp[..begin] == old(temp[..begin])
        invariant temp[begin..p] == BigEndian(High(e, i + 1), 2 * (3 - i))
      {
        DigitBytes(e[i], High(e, i + 1), 2 * (3 - i));
        TwoMore(temp[..], begin, p, ByteOf(e[i] / 256), ByteOf(e[i]));
        ghost var before := temp[..];
        temp[p] := ByteOf(e[i] / 256);
        temp[p + 1] := ByteOf(e[i]);
        assert temp[..] == before[p := ByteOf(e[i] / 256)][p + 1 := ByteOf(e[i])];
        p := p + 2;
        i := i - 1;
      }
      HighIsValue(e);
    }

    /** The counter shifted left by three bits, digit by digit. */
    method BitDigits() returns (e: seq<nat>)
      requires digits.Length == 4 && Digits16(digits[..])
      ensures Digits16(e) && DigitsValue(e) == 8 * DigitsValue(digits[..]) % TWO64
    {
      hide DigitsValue, Weighted, HashBlocks, Whole, Rest, Widened;
      WeightedZero();
      var d: seq<nat> := digits[..];
      e := d;
      var carry: nat := 0;
      // the digits of which the first i are shifted and carried, the others only multiplied
      ghost var f: seq<nat> := EightFold(d);
      EightTimesDigits(d);
      var i := 0;
      while i < 4
        invariant 0 <= i <= 4 && |e| == |f| == 4 && carry < 8
        invariant forall k :: 0 <= k < i ==> e[k] == f[k] < 0x1_0000
        invariant forall k :: i <= k < 4 ==> e[k] == d[k] && f[k] == EightFold(d)[k]
        invariant DigitsValue(f) + Weighted(carry, i) == 8 * DigitsValue(d)
      {
        var before: nat := e[i];
        ghost var x: nat := 8 * before + carry;
        assert f[i] == 8 * before by { EightFoldAt(d, i); }
        AddAtDigit(f, i, carry);
        CarryMoves(f, i, x);
        ShiftCarry(before, carry);
        // (before << 3 | carry) & 65535; the shift leaves room for the carry
        var shifted: nat := (before * 8 + carry) % 0x1_0000;
        f := f[i := shifted];
        e := e[i := shifted];
        carry := before / 0x2000 % 0x1_0000;
        i := i + 1;
      }
      assert e == f;
      CarryLeaves(e, 8 * DigitsValue(d), carry);
    }
  }

  /** What is left of the message, the marker, and n zeros. */
  function Marked(rest: Bytes, n: nat): (r: Bytes)
    ensures |r| == |rest| + 1 + n
  {
    rest + [0x80] + Zeros(n)
  }

  lemma PaddedShort(m: Bytes)
    requires |Rest(m)| <= 55
    ensures HashValue(m) == Compress(HashBlocks(INITIAL, Whole(m)), Marked(Rest(m), 55 - |Rest(m)|) + BigEndian(8 * |m|, 8))
  {
    hide Compress, HashBlocks, BigEndian;
    var last := Marked(Rest(m), 55 - |Rest(m)|) + BigEndian(8 * |m|, 8);
    assert ZeroCount(|m|) == 55 - |Rest(m)|;
    assert Padded(m) == Whole(m) + last;
    HashOneMore(INITIAL, Whole(m), last);
  }

  lemma PaddedLong(m: Bytes)
    requires |Rest(m)| > 55
    ensures HashValue(m)
         == Compress(Compress(HashBlocks(INITIAL, Whole(m)), Marked(Rest(m), 63 - |Rest(m)|)), Zeros(56) + BigEndian(8 * |m|, 8))
  {
    hide Compress, HashBlocks, BigEndian;
    var first := Marked(Rest(m), 63 - |Rest(m)|);
    var last := Zeros(56) + BigEndian(8 * |m|, 8);
    assert ZeroCount(|m|) == 63 - |Rest(m)| + 56;
    assert Zeros(63 - |Rest(m)|) + Zeros(56) == Zeros(ZeroCount(|m|));
    assert Padded(m) == Whole(m) + first + last;
    HashOneMore(INITIAL, Whole(m), first);
    HashOneMore(INITIAL, Whole(m) + first, last);
  }

  /** The hash of whole blocks followed by the first i bytes of b. */
  function HashUpTo(whole: Bytes, b: Bytes, i: nat): Digest
    requires |whole| % 64 == 0 && i % 64 == 0 && i <= |b|
  {
    HashBlocks(INITIAL, whole + b[..i])
  }

  lemma HashUpToEnds(whole: Bytes, b: Bytes, i: nat)
    requires |whole| % 64 == 0 && i % 64 == 0 && i <= |b|
    ensures HashUpTo(whole, b, 0) == HashBlocks(INITIAL, whole)
    ensures |whole + b[..i]| % 64 == 0 && HashUpTo(whole, b, i) == HashBlocks(INITIAL, whole + b[..i])
  {
    hide HashBlocks;
    assert whole + b[..0] == whole;
  }

  lemma BlockTaken(whole: Bytes, b: Bytes, i: nat)
    requires |whole| % 64 == 0 && i % 64 == 0 && i + 64 <= |b|
    ensures (i + 64) % 64 == 0 && HashUpTo(whole, b, i + 64) == Compress(HashUpTo(whole, b, i), b[i..i + 64])
  {
    hide Compress, HashBlocks;
    assert whole + b[..i] + b[i..i + 64] == whole + b[..i + 64];
    HashOneMore(INITIAL, whole + b[..i], b[i..i + 64]);
  }

  /** The digits from i upwards. */
  function High(e: seq<nat>, i: nat): nat
    requires |e| == 4 && i <= 4
    decreases 4 - i
  {
    if i == 4 then 0 else e[i] + 0x1_0000 * High(e, i + 1)
  }

  lemma HighIsValue(e: seq<nat>)
    requires |e| == 4
    ensures High(e, 0) == DigitsValue(e)
  {
    assert High(e, 3) == e[3] && High(e, 2) == e[2] + 0x1_0000 * e[3];
  }

  lemma OneMore(s: Bytes, d: Bytes, was: Bytes, k: nat)
    requires k < |s| == |was| && k < |d| && s[..k] == d[..k] && s[k..] == was[k..]
    ensures s[k := d[k]][..k + 1] == d[..k + 1] && s[k := d[k]][k + 1..] == was[k + 1..]
  {
  }

  lemma TwoMore(s: Bytes, begin: nat, p: nat, a: Byte, b: Byte)
    requires begin <= p && p + 2 <= |s|
    ensures s[p := a][p + 1 := b][begin..p + 2] == s[begin..p] + [a, b]
    ensures s[p := a][p + 1 := b][..begin] == s[..begin]
  {
  }

  lemma BigEndianNothing()
    ensures BigEndian(0, 0) == []
  {
  }

  lemma ShiftCarry(before: nat, carry: nat)
    requires before < 0x1_0000 && carry < 8
    ensures (8 * before + carry) / 0x1_0000 == before / 0x2000 % 0x1_0000 < 8
  {
  }

  function EightFold(d: seq<nat>): seq<nat>
    requires |d| == 4
  {
    [8 * d[0], 8 * d[1], 8 * d[2], 8 * d[3]]
  }

  lemma EightFoldAt(d: seq<nat>, i: nat)
    requires |d| == 4 && i < 4
    ensures EightFold(d)[i] == 8 * d[i]
  {
  }

  /** The byte (x >> (24 - 8 * i)) of the source. */
  function ByteOf64(x: bv64, i: nat): Byte
    requires i < 4
  {
    (match i
     case 0 => (x >> 24) & 0xFF
     case 1 => (x >> 16) & 0xFF
     case 2 => (x >> 8) & 0xFF
     case _ => x & 0xFF) as Byte
  }

  function WordBytes(x: bv32): (r: Bytes)
    ensures |r| == 4
  {
    [((x >> 24) & 0xFF) as Byte, ((x >> 16) & 0xFF) as Byte, ((x >> 8) & 0xFF) as Byte, (x & 0xFF) as Byte]
  }

  /** The first k words of a hash value, each most significant byte first. */
  function DigestPrefix(s: Digest, k: nat): (r: Bytes)
    requires k <= 8
    ensures |r| == 4 * k
  {
    if k == 0 then [] else DigestPrefix(s, k - 1) + WordBytes(WordAt(s, k - 1))
  }

  function DigestBytes(s: Digest): (r: Bytes)
    ensures |r| == 32
  {
    DigestPrefix(s, 8)
  }

  lemma ByteOfWide(x: bv32, i: nat)
    requires i < 4
    ensures ByteOf64(Wide(x), i) == WordBytes(x)[i]
  {
    assert ((x as bv64 >> 24) & 0xFF) as Byte == ((x >> 24) & 0xFF) as Byte;
    assert ((x as bv64 >> 16) & 0xFF) as Byte == ((x >> 16) & 0xFF) as Byte;
    assert ((x as bv64 >> 8) & 0xFF) as Byte == ((x >> 8) & 0xFF) as Byte;
    assert (x as bv64 & 0xFF) as Byte == (x & 0xFF) as Byte;
  }

  lemma DigestByteAt(s: Digest, k: nat, i: nat)
    requires k < 8 && i < 4
    ensures DigestBytes(s)[4 * k + i] == ByteOf64(Widened(s)[k], i)
  {
    hide ByteOf64, WordBytes, Widened, Wide, WordAt;
    WidenedAt(s, k);
    ByteOfWide(WordAt(s, k), i);
    DigestPrefixAt(s, 8, k, i);
  }

  lemma {:induction false} DigestPrefixAt(s: Digest, n: nat, k: nat, i: nat)
    requires k < n <= 8 && i < 4
    ensures DigestPrefix(s, n)[4 * k + i] == WordBytes(WordAt(s, k))[i]
    decreases n
  {
    hide WordBytes, WordAt;
    if k < n - 1 {
      DigestPrefixAt(s, n - 1, k, i);
    }
  }

  /** A prefix of the digest of m, as long as the output buffer allows. */
  ghost predicate HoldsDigest(out: Bytes, m: Bytes) {
    var n := if |out| < 32 then |out| else 32;
    out[..n] == DigestBytes(HashValue(m))[..n]
  }

  /** hash256_impl for random-access iterators: one piece. */
  method Hash256WholeMessage(m: Bytes, out: array<Byte>)
    requires |m| < 0x8000_0000_0000_0000
    modifies out
    ensures HoldsDigest(out[..], m)
  {
    hide DigestBytes, HashValue, Widened;
    var hasher := new Hash256OneByOne();
    hasher.Process(m);
    assert [] + m == m;
    hasher.Finish();
    hasher.GetHashBytes(out, HashValue(m));
  }

  /** hash256_impl for input iterators: pieces of the given buffer size, the last one possibly shorter. */
  method Hash256Buffered(m: Bytes, out: array<Byte>, bufferSize: nat)
    requires 0 < bufferSize < 0x8000_0000
    modifies out
    ensures HoldsDigest(out[..], m)
  {
    hide DigestBytes, HashValue, Widened, Hash256OneByOne.Valid;
    var buffer := new Byte[bufferSize](_ => 0);
    var hasher := new Hash256OneByOne();
    var first := 0;
    while first != |m|
      invariant 0 <= first <= |m|
      invariant hasher.Valid() && fresh(hasher) && fresh(hasher.digits) && fresh(hasher.h) && fresh(buffer)
      invariant hasher.absorbed == m[..first]
    {
      var next := ReadPiece(m, first, buffer);
      PrefixExtends(m, first, next);
      hasher.Process(buffer[..next - first]);
      first := next;
    }
    assert m[..first] == m;
    hasher.Finish();
    hasher.GetHashBytes(out, HashValue(m));
  }

  lemma PrefixExtends(m: Bytes, i: nat, j: nat)
    requires i <= j <= |m|
    ensures m[..i] + m[i..j] == m[..j]
  {
  }

  /** Copies input into the buffer until it is full or the input ends. */
  method ReadPiece(m: Bytes, start: nat, buffer: array<Byte>) returns (first: nat)
    requires start < |m| && 0 < buffer.Length
    modifies buffer
    ensures start < first <= |m| && first - start <= buffer.Length
    ensures buffer[..first - start] == m[start..first]
  {
    first := start;
    var i := 0;
    while i != buffer.Length
      invariant 0 <= i <= buffer.Length && first == start + i <= |m|
      invariant buffer[..i] == m[start..first]
    {
      if first == |m| {
        break;
      }
      buffer[i] := m[first];
      i := i + 1;
      first := first + 1;
    }
  }

  /** All digits but the first are 16-bit; the first one too once it has been split. */
  predicate SmallExcept(d: seq<nat>, i: nat) {
    |d| == 4 && (i > 0 ==> d[0] < 0x1_0000) && d[1] < 0x1_0000 && d[2] < 0x1_0000 && d[3] < 0x1_0000
  }

  lemma AddFirst(d: seq<nat>, n: nat)
    requires Digits16(d)
    ensures SmallExcept(d[0 := d[0] + n], 0)
    ensures DigitsValue(d[0 := d[0] + n]) + Weighted(0, 0) == DigitsValue(d) + n
  {
  }

  lemma WeightedZero()
    ensures Weighted(0, 0) == 0 && Weighted(0, 4) == 0
  {
  }

  lemma EightTimesDigits(d: seq<nat>)
    requires |d| == 4
    ensures DigitsValue(EightFold(d)) == 8 * DigitsValue(d)
  {
  }

  /** A carry out of the last digit is lost, which is arithmetic modulo 2^64. */
  lemma CarryLeaves(d: seq<nat>, total: nat, c: nat)
    requires Digits16(d) && DigitsValue(d) + Weighted(c, 4) == total
    ensures DigitsValue(d) == total % TWO64
  {
    DigitsFit(d);
    ModuloUnique(total, DigitsValue(d), c);
  }

  lemma LengthAdds(a: nat, n: nat)
    ensures (a % TWO64 + n) % TWO64 == (a + n) % TWO64
  {
  }

  lemma EightTimesModulo(a: nat)
    ensures 8 * (a % TWO64) % TWO64 == 8 * a % TWO64
  {
    var q, r := a / TWO64, a % TWO64;
    assert 8 * a == 8 * r + TWO64 * (8 * q);
    ModuloAdds(8 * r, 8 * q);
  }

  lemma ModuloAdds(x: nat, q: nat)
    ensures (x + TWO64 * q) % TWO64 == x % TWO64
  {
  }
}
