/** The resizable buffer of buffer.h. */
module Buffers {
  import opened Bytes
  import opened BitStrings
  import opened Blocks

  class Buffer {
    var buf: array<Byte>

    constructor ()
      ensures buf.Length == 0 && fresh(buf)
    {
      buf := new Byte[0];
    }

    method Create(size: U32)
      modifies this
      ensures fresh(buf) && buf[..] == Zeros(size)
    {
      buf := new Byte[size](_ => 0);
    }

    /** Copies data to an offset, if all of it fits. */
    method P(offset: U32, data: Bytes)
      requires offset + |data| < TWO32
      modifies buf
      ensures buf[..] == if offset + |data| > buf.Length then old(buf[..])
                         else old(buf[..])[..offset] + data + old(buf[..])[offset + |data|..]
    {
      if offset + |data| > buf.Length {
        return;
      }
      for i := 0 to |data|
        invariant forall k :: 0 <= k < i ==> buf[offset + k] == data[k]
        invariant forall k :: 0 <= k < offset || offset + i <= k < buf.Length ==> buf[k] == old(buf[k])
      {
        buf[offset + i] := data[i];
      }
    }

    /** A new buffer that starts with bitLen bits of this one, from position bitOffset on, and is zero behind them: what
        BitCopy makes of a zeroed buffer. */
    method Pbit(bitOffset: nat, bitLen: nat) returns (res: Buffer)
      requires bitOffset + bitLen <= 8 * buf.Length && bitOffset + bitLen < TWO32 - 8
      ensures fresh(res) && fresh(res.buf) && res.buf.Length == bitLen / 8 + 1
      ensures BitsOf(res.buf[..]) == Spliced(BitsOf(Zeros(bitLen / 8 + 1)), 0, BitsOf(buf[..])[bitOffset..bitOffset + bitLen])
    {
      hide Bit, BitsOf, Spliced, WithBit, OrBit, LastByte, Zeros;
      var resSize := bitLen / 8 + 1;
      res := new Buffer();
      res.Create(resSize);
      ghost var was, x := BitsOf(Zeros(resSize)), BitsOf(buf[..])[bitOffset..bitOffset + bitLen];
      assert res.buf[..] == Zeros(resSize);
      SplicedEnds(was, 0, x);
      ByteMoves(bitOffset % 8);
      var offs, z, zd, k := bitOffset / 8, 0, 0, 0;
      var bo := bitOffset;
      if bitOffset >= 8 {
        bo := bitOffset % 8;
      }
      assert bo == bitOffset % 8 && bitLen < 8 * resSize;
      var n := bo;
      ghost var i: nat := 0;
      while n < bitLen + bo
        invariant n == bo + i && i <= bitLen && 8 * zd + k == i && k < 8
        invariant z == LastByte(n)
        invariant BitsOf(res.buf[..]) == Spliced(was, 0, x[..i])
        invariant res.buf.Length == resSize == |Zeros(resSize)|
        modifies res.buf
      {
        var of := n;
        ByteMoves(n);
        if n >= 8 {
          of := n % 8;
          if of == 0 {
            z := z + 1;
          }
        }
        assert of == n % 8 && z == n / 8;
        BitRead(buf[..], bitOffset, bitLen, n, i, z, of);
        TargetPlace(i, zd, k);
        ZeroBits(resSize, i);
        BitTaken(res.buf[..], was, x, i);
        OrInto(res.buf, zd, k, Bit(buf[offs + z], of));
        k := k + 1;
        if k == 8 {
          k, zd := 0, zd + 1;
        }
        n, i := n + 1, i + 1;
      }
    }
  }

  /** The byte of the bit before the one at position n. */
  function LastByte(n: nat): nat {
    if n < 8 then 0 else (n - 1) / 8
  }

  lemma ByteMoves(n: nat)
    ensures LastByte(n + 1) == n / 8
    ensures n < 8 ==> LastByte(n) == n / 8 && n % 8 == n
    ensures n >= 8 ==> n / 8 == if n % 8 == 0 then LastByte(n) + 1 else LastByte(n)
  {
  }

  lemma BitRead(s: Bytes, from: nat, len: nat, n: nat, i: nat, z: nat, of: nat)
    requires from + len <= 8 * |s| && i < len && n == from % 8 + i && z == n / 8 && of == n % 8
    ensures from / 8 + z < |s| && Bit(s[from / 8 + z], of) == BitsOf(s)[from..from + len][i]
  {
    hide Bit;
    SourcePlace(from, n);
    SliceAt(s, from, len, i);
  }

  lemma SliceAt(s: Bytes, from: nat, n: nat, i: nat)
    requires from + n <= 8 * |s| && i < n
    ensures BitsOf(s)[from..from + n][i] == Bit(s[(from + i) / 8], (from + i) % 8)
  {
    hide Bit;
  }

  lemma SourcePlace(offset: nat, n: nat)
    requires n >= offset % 8
    ensures var at := offset + (n - offset % 8);
            at / 8 == offset / 8 + n / 8 && at % 8 == n % 8
  {
  }

  lemma TargetPlace(i: nat, byte: nat, bit: nat)
    requires i == 8 * byte + bit && bit < 8
    ensures i / 8 == byte && i % 8 == bit
  {
  }

  /** a[i] |= bit << k */
  method OrInto(a: array<Byte>, i: nat, k: nat, v: bool)
    requires i < a.Length
    modifies a
    ensures a[..] == old(a[..])[i := OrBit(old(a[i]), k, v)]
  {
    hide OrBit;
    a[i] := OrBit(a[i], k, v);
  }

  /** |= bit << k */
  function OrBit(b: Byte, k: nat, v: bool): Byte {
    if v then b | Mask(k) else b
  }

  lemma OrIsWith(b: Byte, k: nat, v: bool)
    requires k < 8 && !Bit(b, k)
    ensures OrBit(b, k, v) == WithBit(b, k, v)
  {
    match k {
      case 0 => case 1 => case 2 => case 3 => case 4 => case 5 => case 6 => case _ =>
    }
  }

  /** Setting the next bit where there is a zero. */
  lemma BitTaken(s: Bytes, was: Bits, x: Bits, i: nat)
    requires i < |x| <= |was| == 8 * |s| && !was[i] && BitsOf(s) == Spliced(was, 0, x[..i])
    ensures BitsOf(s[i / 8 := OrBit(s[i / 8], i % 8, x[i])]) == Spliced(was, 0, x[..i + 1])
  {
    hide WithBit, OrBit, Bit;
    assert !BitsOf(s)[i];
    OrIsWith(s[i / 8], i % 8, x[i]);
    BitStored(s, i, x[i]);
    SplicedMore(was, 0, x, i);
  }

  lemma ZeroBits(n: nat, k: nat)
    requires k < 8 * n
    ensures !BitsOf(Zeros(n))[k]
  {
    ZeroBit(k % 8);
  }

  lemma ZeroBit(j: nat)
    ensures !Bit(0, j)
  {
  }
}
