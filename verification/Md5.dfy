/** MD5 over whole messages (sections 3.1 to 3.5 of RFC 1321), and the incremental hasher of algo/MD5.cxx. */
module Md5 {
  import opened Bytes
  import opened Blocks
  import opened Md5Block

  // ---------------------------------------------------------------------------------------------
  // The standard

  function Padding(len: nat): (r: Bytes)
    ensures (len + |r| + 8) % 64 == 0 && 0 < |r| <= 64
  {
    [0x80] + Zeros(ZeroCount(len))
  }

  /** The message, a one bit, zeros, and the length in bits modulo 2^64. */
  function Padded(m: Bytes): (r: Bytes)
    ensures |r| % 64 == 0
  {
    m + Padding(|m|) + LittleEndian(8 * |m| % TWO64, 8)
  }

  function HashBlocks(s: State, m: Bytes): State
    requires |m| % 64 == 0
    decreases |m|
  {
    if m == [] then s else Compress(HashBlocks(s, m[..|m| - 64]), m[|m| - 64..])
  }

  function DigestBytes(s: State): (r: Bytes)
    ensures |r| == 16
  {
    EncodedWords([s.a, s.b, s.c, s.d])
  }

  function Digest(m: Bytes): (r: Bytes)
    ensures |r| == 16
  {
    DigestBytes(HashBlocks(INITIAL, Padded(m)))
  }

  function WordBytes(x: bv32): (r: Bytes)
    ensures |r| == 4
  {
    [(x & 0xff) as Byte, ((x >> 8) & 0xff) as Byte, ((x >> 16) & 0xff) as Byte, ((x >> 24) & 0xff) as Byte]
  }

  function EncodedWords(x: seq<bv32>): (r: Bytes)
    ensures |r| == 4 * |x|
  {
    if x == [] then [] else EncodedWords(x[..|x| - 1]) + WordBytes(x[|x| - 1])
  }

  /** Encoding a word undoes decoding its bytes, and the other way round. */
  lemma WordRoundTrip(b0: Byte, b1: Byte, b2: Byte, b3: Byte, x: bv32)
    ensures WordBytes(Word(b0, b1, b2, b3)) == [b0, b1, b2, b3]
    ensures var w := WordBytes(x); Word(w[0], w[1], w[2], w[3]) == x
  {
  }

  // ---------------------------------------------------------------------------------------------
  // Blocks

  lemma HashOneMore(m: Bytes, block: Bytes)
    requires |m| % 64 == 0 && |block| == 64
    ensures |m + block| % 64 == 0 && HashBlocks(INITIAL, m + block) == Compress(HashBlocks(INITIAL, m), block)
  {
    hide Compress;
    assert (m + block)[..|m + block| - 64] == m && (m + block)[|m + block| - 64..] == block;
  }

  /** A whole block at position i of what follows the whole blocks of m. */
  lemma BlockTaken(m: Bytes, b: Bytes, i: nat)
    requires |m| % 64 == 0 && i % 64 == 0 && i + 64 <= |b|
    ensures |m + b[..i]| % 64 == 0 && |m + b[..i + 64]| % 64 == 0
    ensures HashBlocks(INITIAL, m + b[..i + 64]) == Compress(HashBlocks(INITIAL, m + b[..i]), b[i..i + 64])
  {
    hide Compress, HashBlocks;
    assert m + b[..i] + b[i..i + 64] == m + b[..i + 64];
    HashOneMore(m + b[..i], b[i..i + 64]);
  }

  /** The whole blocks of m and k bytes of what follows them once input has been added. */
  function Taken(m: Bytes, input: Bytes, k: nat): (r: Bytes)
    requires k % 64 == 0 && k <= |m| % 64 + |input|
    ensures |r| % 64 == 0
  {
    Whole(m) + (Rest(m) + input)[..k]
  }

  /** s is the state after those. */
  predicate UpTo(s: State, m: Bytes, input: Bytes, k: nat) {
    k % 64 == 0 && k <= |m| % 64 + |input| && s == HashBlocks(INITIAL, Taken(m, input, k))
  }

  lemma FirstBlock(m: Bytes, input: Bytes, n: nat)
    requires |m| % 64 + n == 64 && n <= |input|
    ensures UpTo(Compress(HashBlocks(INITIAL, Whole(m)), Rest(m) + input[..n]), m, input, 64)
  {
    hide Compress, HashBlocks, Whole, Rest;
    var b := Rest(m) + input;
    BlockTaken(Whole(m), b, 0);
    assert Whole(m) + b[..0] == Whole(m);
    assert b[0..64] == Rest(m) + input[..n];
  }

  lemma NextBlock(s: State, m: Bytes, input: Bytes, k: nat, i: nat)
    requires UpTo(s, m, input, k) && k == |m| % 64 + i && i + 64 <= |input|
    ensures UpTo(Compress(s, input[i..i + 64]), m, input, k + 64)
  {
    hide Compress, HashBlocks, Whole, Rest;
    var b := Rest(m) + input;
    BlockTaken(Whole(m), b, k);
    assert b[k..k + 64] == input[i..i + 64];
  }

  /** What is left after the last whole block: all of the input, if there was none. */
  lemma LastPart(s: State, m: Bytes, input: Bytes, i: nat)
    requires if i == 0 then |m| % 64 + |input| < 64 && s == HashBlocks(INITIAL, Whole(m))
             else UpTo(s, m, input, |m| % 64 + i) && i <= |input| < i + 64
    ensures s == HashBlocks(INITIAL, Whole(m + input))
    ensures Rest(m + input) == if i == 0 then Rest(m) + input else input[i..]
  {
    hide Whole, Rest, HashBlocks;
    var b, k := Rest(m) + input, if i == 0 then 0 else |m| % 64 + i;
    PieceTaken(m, input, k);
    assert Whole(m) + b[..0] == Whole(m);
    assert i == 0 ==> Whole(m + input) == Whole(m) && b[0..] == b;
    assert i > 0 ==> b[k..] == input[i..];
  }

  // ---------------------------------------------------------------------------------------------
  // The bit count in two 32-bit words

  predicate Counts(c: seq<nat>, len: nat) {
    |c| == 2 && c[0] < TWO32 && c[1] < TWO32 && c[0] + TWO32 * c[1] == 8 * len % TWO64
  }

  /** The shift to the left loses the top three bits of the length, the shift to the right finds them. */
  lemma ShiftSplits(n: nat)
    requires n < TWO32
    ensures 8 * n == Wrap(8 * n) + TWO32 * (n / 0x2000_0000)
  {
    var q, r := n / 0x2000_0000, n % 0x2000_0000;
    assert 8 * n == 8 * r + TWO32 * q;
    WrapUnique(8 * r, q);
  }

  lemma WrapUnique(v: nat, q: nat)
    requires v < TWO32
    ensures Wrap(v + TWO32 * q) == v
  {
  }

  /** A sum has wrapped exactly when it is less than a summand. */
  lemma CarryOut(x: nat, y: nat)
    requires x < TWO32 && y < TWO32
    ensures x + y == Wrap(x + y) + TWO32 * if Wrap(x + y) < y then 1 else 0
  {
  }

  lemma WrapTwice(x: nat, y: nat)
    ensures Wrap(Wrap(x) + y) == Wrap(x + y)
  {
  }

  lemma CountAdds(c0: nat, c1: nat, len: nat, n: nat)
    requires Counts([c0, c1], len) && n < TWO32
    ensures var low := Wrap(c0 + Wrap(8 * n));
            var carry := if low < Wrap(8 * n) then 1 else 0;
            Counts([low, Wrap(Wrap(c1 + carry) + n / 0x2000_0000)], len + n)
  {
    hide Wrap;
    WrapSmall(8 * n);
    var low := Wrap(c0 + Wrap(8 * n));
    var carry := if low < Wrap(8 * n) then 1 else 0;
    ShiftSplits(n);
    CarryOut(c0, Wrap(8 * n));
    var high := c1 + carry + n / 0x2000_0000;
    WrapTwice(c1 + carry, n / 0x2000_0000);
    WrapSmall(c0 + Wrap(8 * n));
    WrapSmall(high);
    assert c0 + TWO32 * c1 + 8 * n == low + TWO32 * high;
    ModuloSplit(low, high);
    ModuloOfSum(8 * len, 8 * n);
  }

  lemma WrapSmall(x: nat)
    ensures Wrap(x) < TWO32
  {
  }

  lemma ModuloSplit(low: nat, high: nat)
    requires low < TWO32
    ensures (low + TWO32 * high) % TWO64 == low + TWO32 * Wrap(high)
  {
    var q := high / TWO32;
    assert low + TWO32 * high == low + TWO32 * Wrap(high) + TWO64 * q;
    ModuloUnique(low + TWO32 * Wrap(high), q);
  }

  lemma ModuloUnique(v: nat, q: nat)
    requires v < TWO64
    ensures (v + TWO64 * q) % TWO64 == v
  {
  }

  lemma ModuloOfSum(a: nat, b: nat)
    ensures (a % TWO64 + b) % TWO64 == (a + b) % TWO64
  {
  }

  /** The position in the current block is the number of bytes modulo 64, though the count wraps. */
  lemma IndexOfCount(c: seq<nat>, len: nat)
    requires Counts(c, len)
    ensures c[0] / 8 % 64 == len % 64
  {
    var q := 8 * len / TWO64;
    assert 8 * len == c[0] + TWO32 * c[1] + TWO64 * q;
    assert c[0] == 8 * (len - 0x2000_0000 * c[1] - 0x2000_0000_0000_0000 * q);
    var p := c[0] / 8;
    assert len == p + 64 * (0x80_0000 * c[1] + 0x80_0000_0000_0000 * q);
    Modulo64(p, 0x80_0000 * c[1] + 0x80_0000_0000_0000 * q);
  }

  lemma CountWords(c: seq<nat>, len: nat)
    requires Counts(c, len)
    ensures |c| == 2 && Counts([c[0], c[1]], len) && c[0] / 8 % 64 == len % 64 && Wrap(c[1] + 0) == c[1]
  {
    IndexOfCount(c, len);
    assert c == [c[0], c[1]];
  }

  lemma Modulo64(p: nat, k: nat)
    ensures (p + 64 * k) % 64 == p % 64
  {
  }

  /** The loop over whole blocks compares in 32 bits.  It stops where it should exactly if it does not get within 64 bytes
      of 2^32; otherwise its guard wraps round and it reads beyond the input. */
  predicate StopsInTime(len: nat, n: nat) {
    n - (len + n) % 64 < TWO32 - 64
  }

  lemma StopsInTimeIff(len: nat, n: nat)
    requires n < TWO32 && n >= 64 - len % 64
    ensures StopsInTime(len, n) <==> Wrap(n - (len + n) % 64 + 64) > n
    ensures n < TWO32 - 64 ==> StopsInTime(len, n)
  {
  }

  /** The guard of the loop, at a position i it can reach. */
  lemma GuardIsExact(len: nat, index: nat, i: nat, n: nat)
    requires StopsInTime(len, n) && n < TWO32 && index == len % 64 && (index + i) % 64 == 0 && i <= n
    ensures Wrap(i + 64) <= n <==> i + 64 <= n
    ensures i + 64 > n ==> i == n - (index + n) % 64
  {
  }

  // ---------------------------------------------------------------------------------------------
  // The hasher

  class MD5 {
    var finish: bool
    const count: array<nat>
    const state: array<bv32>
    const buffer: array<Byte>
    const result: array<Byte>
    ghost var absorbed: Bytes

    ghost predicate Shaped() {
      count.Length == 2 && state.Length == 4 && buffer.Length == 64 && result.Length == 16 && buffer != result
    }

    /** Everything so far is in the state, but for the incomplete last block. */
    ghost predicate Running(m: Bytes)
      requires Shaped()
      reads count, state, buffer
    {
      && Counts(count[..], |m|)
      && buffer[..|m| % 64] == Rest(m)
      && AsState(state) == HashBlocks(INITIAL, Whole(m))
    }

    ghost predicate Valid()
      reads this, count, state, buffer, result
    {
      Shaped() && if finish then result[..] == Digest(absorbed) else Running(absorbed)
    }

    constructor ()
      ensures Valid() && absorbed == [] && !finish
      ensures fresh(count) && fresh(state) && fresh(buffer) && fresh(result)
    {
      finish, absorbed := false, [];
      count := new nat[2](_ => 0);
      state := new bv32[4];
      buffer := new Byte[64];
      result := new Byte[16];
      new;
      state[0], state[1], state[2], state[3] := 0x67452301, 0xefcdab89, 0x98badcfe, 0x10325476;
      assert Whole([]) == [];
    }

    /** Takes in the first n bytes of input: any cut of a message into pieces leads to the same state. */
    method Update(input: Bytes)
      requires Valid() && !finish && |input| < TWO32 && StopsInTime(|absorbed|, |input|)
      modifies this`absorbed, count, state, buffer
      ensures Valid() && absorbed == old(absorbed) + input
    {
      hide Compress, HashBlocks, Whole, Rest, Counts, StopsInTime, Wrap, UpTo;
      var length := |input|;
      ghost var m := absorbed;
      var index := AddCount(length);
      ghost var c := count[..];
      var firstPart := 64 - index;
      var i := 0;
      if length >= firstPart {
        i := TakeBlocks(input, index);
        index := 0;
      }
      LastPart(AsState(state), m, input, i);
      Copy(input[i..], index);
      absorbed := absorbed + input;
      assert buffer[..|absorbed| % 64] == Rest(absorbed);
      assert count[..] == c && |absorbed| == |m| + length;
    }

    /** Fills the buffer and compresses it, then every further whole block. */
    method TakeBlocks(input: Bytes, index: nat) returns (i: nat)
      requires Shaped() && |input| < TWO32 && StopsInTime(|absorbed|, |input|)
      requires index == |absorbed| % 64 && 64 - index <= |input| && buffer[..index] == Rest(absorbed)
      requires AsState(state) == HashBlocks(INITIAL, Whole(absorbed))
      modifies state, buffer
      ensures 0 < i <= |input| < i + 64 && UpTo(AsState(state), absorbed, input, index + i)
    {
      hide Compress, HashBlocks, Whole, Rest, StopsInTime, Wrap, UpTo;
      var length, firstPart := |input|, 64 - index;
      FirstBlock(absorbed, input, firstPart);
      Copy(input[..firstPart], index);
      assert buffer[..] == Rest(absorbed) + input[..firstPart];
      Transform(state, buffer[..]);
      i := firstPart;
      GuardIsExact(|absorbed|, index, i, length);
      while Wrap(i + 64) <= length
        invariant firstPart <= i <= length && (index + i) % 64 == 0
        invariant Wrap(i + 64) <= length <==> i + 64 <= length
        invariant UpTo(AsState(state), absorbed, input, index + i)
        modifies state
        decreases length - i
      {
        NextBlock(AsState(state), absorbed, input, index + i, i);
        Transform(state, input[i..i + 64]);
        i := i + 64;
        GuardIsExact(|absorbed|, index, i, length);
      }
    }

    /** Adds to the bit count; the result is the position in the current block. */
    method AddCount(length: nat) returns (index: nat)
      requires count.Length == 2 && Counts(count[..], |absorbed|) && length < TWO32
      modifies count
      ensures Counts(count[..], |absorbed| + length) && index == |absorbed| % 64
    {
      hide Counts, Wrap;
      ghost var c0, c1 := count[0], count[1];
      CountWords(count[..], |absorbed|);
      index := count[0] / 8 % 64;
      CountAdds(c0, c1, |absorbed|, length);
      count[0] := Wrap(count[0] + Wrap(length * 8));
      if count[0] < Wrap(length * 8) {
        count[1] := Wrap(count[1] + 1);
      }
      count[1] := Wrap(count[1] + length / 0x2000_0000);
      assert count[..] == [count[0], count[1]];
    }

    /** memcpy(&buffer[at], bytes, ...) */
    method Copy(bytes: Bytes, at: nat)
      requires at + |bytes| <= buffer.Length
      modifies buffer
      ensures buffer[..] == old(buffer[..at]) + bytes + old(buffer[at + |bytes|..])
    {
      forall k | 0 <= k < |bytes| {
        buffer[at + k] := bytes[k];
      }
    }

    /** Pads, and writes the digest; a second call does nothing. */
    method Finalize()
      requires Valid()
      modifies this, count, state, buffer, result
      ensures Valid() && finish && absorbed == old(absorbed)
      ensures old(finish) ==> unchanged(this, count, state, buffer, result)
    {
      hide Compress, HashBlocks, Whole, Rest, Counts, StopsInTime, Wrap, Padding, EncodedWords, WordOf, Padded;
      if finish {
        return;
      }
      ghost var m := absorbed;
      var bits := new Byte[8];
      CountBytes(count[..], |m|);
      Encode(bits, [WordOf(count[0]), WordOf(count[1])]);
      var index := count[0] / 8 % 64;
      IndexOfCount(count[..], |m|);
      var padLength := if index < 56 then 56 - index else 120 - index;
      PaddingIs(|m|, padLength);
      ShortStops(|m|, padLength);
      Update(([0x80] + Zeros(63))[..padLength]);
      ShortStops(|absorbed|, 8);
      Update(bits[..]);
      assert absorbed == Padded(m) by { PaddedParts(m); }
      PaddedIsWhole(m);
      assert state[..] == [state[0], state[1], state[2], state[3]];
      Encode(result, state[..]);
      Clear();
      absorbed := m;
      finish := true;
    }

    /** Forgets what is no longer needed. */
    method Clear()
      requires Shaped()
      modifies buffer, count
    {
      for i := 0 to 64 {
        buffer[i] := 0;
      }
      count[0], count[1] := 0, 0;
    }

    /** The bytes of the words, low byte first. */
    static method Encode(output: array<Byte>, input: seq<bv32>)
      requires output.Length == 4 * |input|
      modifies output
      ensures output[..] == EncodedWords(input)
    {
      hide WordBytes;
      var i, j := 0, 0;
      while j < output.Length
        invariant j == 4 * i <= output.Length
        invariant output[..j] == EncodedWords(input[..i])
      {
        EncodedOneMore(input, i);
        var w := WordBytes(input[i]);
        ghost var before := output[..j];
        output[j], output[j + 1], output[j + 2], output[j + 3] := w[0], w[1], w[2], w[3];
        assert output[..j + 4] == before + w;
        i, j := i + 1, j + 4;
      }
      assert input[..i] == input && output[..j] == output[..];
    }
  }

  /** The digest of a string, whose length is taken in 32 bits: of all of it exactly when it is shorter than 2^32. */
  method HashString(str: Bytes) returns (digest: Bytes)
    requires StopsInTime(0, Wrap(|str|))
    ensures digest == Digest(str[..Wrap(|str|)])
  {
    hide MD5.Running, Digest;
    var md5 := new MD5();
    md5.Update(str[..Wrap(|str|)]);
    assert [] + str[..Wrap(|str|)] == str[..Wrap(|str|)];
    md5.Finalize();
    return md5.result[..];
  }

  lemma EncodedOneMore(x: seq<bv32>, i: nat)
    requires i < |x|
    ensures EncodedWords(x[..i + 1]) == EncodedWords(x[..i]) + WordBytes(x[i])
  {
    assert x[..i + 1][..i] == x[..i];
  }

  /** A number below 2^32 as a word. */
  function WordOf(n: nat): bv32 {
    Word(ByteOf(n), ByteOf(n / 0x100), ByteOf(n / 0x1_0000), ByteOf(n / 0x100_0000))
  }

  lemma WordOfBytes(n: nat)
    ensures WordBytes(WordOf(n)) == LittleEndian(n, 4)
  {
    WordRoundTrip(ByteOf(n), ByteOf(n / 0x100), ByteOf(n / 0x1_0000), ByteOf(n / 0x100_0000), 0);
    hide Word, WordBytes, ByteOf;
    assert n / 0x100 / 0x100 == n / 0x1_0000 && n / 0x1_0000 / 0x100 == n / 0x100_0000;
    assert LittleEndian(n / 0x1_0000, 2) == [ByteOf(n / 0x1_0000)] + LittleEndian(n / 0x100_0000, 1);
    assert LittleEndian(n / 0x100_0000, 1) == [ByteOf(n / 0x100_0000)] + [];
  }

  /** The bytes of a number are those of its low part followed by those of its high part. */
  lemma {:induction false} LittleEndianSplit(low: nat, high: nat, k: nat, j: nat)
    requires low < Pow256(k)
    ensures LittleEndian(low + Pow256(k) * high, k + j) == LittleEndian(low, k) + LittleEndian(high, j)
    decreases k
  {
    hide ByteOf;
    if k == 0 {
      assert low + Pow256(k) * high == high;
      assert LittleEndian(low, 0) == [];
    } else {
      var p := Pow256(k - 1);
      Reassociate(256, p, high);
      ByteOfSame(low, p * high);
      LittleEndianSplit(low / 256, high, k - 1, j);
      FirstByte(low + Pow256(k) * high, k + j);
      FirstByte(low, k);
    }
  }

  lemma FirstByte(n: nat, k: nat)
    requires k > 0
    ensures LittleEndian(n, k) == [ByteOf(n)] + LittleEndian(n / 256, k - 1)
  {
  }

  lemma Pow256Four()
    ensures Pow256(4) == TWO32
  {
    assert Pow256(2) == 0x1_0000;
  }

  lemma CountBytes(c: seq<nat>, len: nat)
    requires Counts(c, len)
    ensures EncodedWords([WordOf(c[0]), WordOf(c[1])]) == LittleEndian(8 * len % TWO64, 8)
  {
    hide WordBytes, WordOf, LittleEndian, EncodedWords;
    WordOfBytes(c[0]);
    WordOfBytes(c[1]);
    Pow256Four();
    LittleEndianSplit(c[0], c[1], 4, 4);
    TwoWords(WordOf(c[0]), WordOf(c[1]));
  }

  lemma TwoWords(x: bv32, y: bv32)
    ensures EncodedWords([x, y]) == WordBytes(x) + WordBytes(y)
  {
    hide WordBytes;
    assert [x, y][..1] == [x] && [x][..0] == [];
    assert EncodedWords([x]) == [] + WordBytes(x);
  }

  lemma PaddingIs(len: nat, n: nat)
    requires n == if len % 64 < 56 then 56 - len % 64 else 120 - len % 64
    ensures |Padding(len)| == n && ([0x80] + Zeros(63))[..n] == Padding(len)
  {
    assert ZeroCount(len) == n - 1;
  }

  lemma ShortStops(len: nat, n: nat)
    requires n <= 64
    ensures StopsInTime(len, n)
  {
  }

  lemma PaddedParts(m: Bytes)
    ensures Padded(m) == m + Padding(|m|) + LittleEndian(8 * |m| % TWO64, 8)
  {
  }

  lemma PaddedIsWhole(m: Bytes)
    ensures Whole(Padded(m)) == Padded(m)
  {
    hide Whole, Rest, Padded;
    assert Padded(m) + [] == Padded(m);
    WholeUnique(Padded(m), Padded(m), []);
  }
}
