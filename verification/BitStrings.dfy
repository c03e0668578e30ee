/** Bytes as strings of bits, lowest bit first (lib/11p_bin.cxx, buffer.h). */
module BitStrings {
  import opened Bytes

  type Bits = seq<bool>

  function Mask(j: nat): Byte {
    match j
    case 0 => 0x01 case 1 => 0x02 case 2 => 0x04 case 3 => 0x08
    case 4 => 0x10 case 5 => 0x20 case 6 => 0x40 case _ => 0x80
  }

  /** (b >> j) & 1 */
  predicate Bit(b: Byte, j: nat) {
    match j
    case 0 => b & 1 == 1 case 1 => (b >> 1) & 1 == 1 case 2 => (b >> 2) & 1 == 1 case 3 => (b >> 3) & 1 == 1
    case 4 => (b >> 4) & 1 == 1 case 5 => (b >> 5) & 1 == 1 case 6 => (b >> 6) & 1 == 1 case _ => (b >> 7) & 1 == 1
  }

  function WithBit(b: Byte, j: nat, v: bool): Byte {
    if v then b | Mask(j) else b & !Mask(j)
  }

  lemma WithBitOnly(b: Byte, j: nat, v: bool, i: nat)
    requires i < 8 && j < 8
    ensures Bit(WithBit(b, j, v), i) == if i == j then v else Bit(b, i)
  {
    hide Bit, Mask;
    if v { BitSet(b, j, i); } else { BitCleared(b, j, i); }
  }

  lemma BitSet(b: Byte, j: nat, i: nat)
    requires i < 8 && j < 8
    ensures Bit(b | Mask(j), i) == (i == j || Bit(b, i))
  {
    match j {
      case 0 => case 1 => case 2 => case 3 => case 4 => case 5 => case 6 => case _ =>
    }
  }

  lemma BitCleared(b: Byte, j: nat, i: nat)
    requires i < 8 && j < 8
    ensures Bit(b & !Mask(j), i) == (i != j && Bit(b, i))
  {
    hide Bit, Mask;
    BitIsMasked(b, i);
    BitIsMasked(b & !Mask(j), i);
    MasksApart(b, i, j);
  }

  lemma BitIsMasked(b: Byte, i: nat)
    requires i < 8
    ensures Bit(b, i) == (b & Mask(i) != 0)
  {
    match i {
      case 0 => case 1 => case 2 => case 3 => case 4 => case 5 => case 6 => case _ =>
    }
  }

  lemma MasksApart(b: Byte, i: nat, j: nat)
    requires i < 8 && j < 8
    ensures (b & !Mask(j)) & Mask(i) == if i == j then 0 else b & Mask(i)
  {
    match i {
      case 0 => case 1 => case 2 => case 3 => case 4 => case 5 => case 6 => case _ =>
    }
  }

  function BitsOf(s: Bytes): (r: Bits)
    ensures |r| == 8 * |s|
  {
    seq(8 * |s|, k requires 0 <= k < 8 * |s| => Bit(s[k / 8], k % 8))
  }

  /** x put over the bits of s from position d on. */
  function Spliced(s: Bits, d: nat, x: Bits): (r: Bits)
    requires d + |x| <= |s|
    ensures |r| == |s|
  {
    s[..d] + x + s[d + |x|..]
  }

  lemma BitStored(s: Bytes, k: nat, v: bool)
    requires k < 8 * |s|
    ensures BitsOf(s[k / 8 := WithBit(s[k / 8], k % 8, v)]) == BitsOf(s)[k := v]
  {
    hide Bit, WithBit;
    var t := s[k / 8 := WithBit(s[k / 8], k % 8, v)];
    forall i | 0 <= i < 8 * |s|
      ensures BitsOf(t)[i] == BitsOf(s)[k := v][i]
    {
      WithBitOnly(s[k / 8], k % 8, v, i % 8);
    }
  }

  lemma SplicedMore(s: Bits, d: nat, x: Bits, n: nat)
    requires d + |x| <= |s| && n < |x|
    ensures Spliced(s, d, x[..n])[d + n := x[n]] == Spliced(s, d, x[..n + 1])
  {
  }

  lemma SplicedEnds(s: Bits, d: nat, x: Bits)
    requires d + |x| <= |s|
    ensures Spliced(s, d, x[..0]) == s && Spliced(s, d, x[..|x|]) == Spliced(s, d, x)
  {
    assert x[..|x|] == x;
  }

  /** Copies n bits from position from of src to position d of dst and nothing else; the result is the least number of
      bytes that reaches as far. */
  method BitCopy(dst: array<Byte>, d: nat, n: nat, src: array<Byte>, from: nat) returns (size: nat)
    requires dst != src && d + n <= 8 * dst.Length && from + n <= 8 * src.Length
    requires d + n < TWO32 && from + n < TWO32
    modifies dst
    ensures BitsOf(dst[..]) == Spliced(old(BitsOf(dst[..])), d, BitsOf(src[..])[from..from + n])
    ensures d + n <= 8 * size < d + n + 8
  {
    hide Bit, BitsOf, Spliced, WithBit;
    ghost var was, x := BitsOf(dst[..]), BitsOf(src[..])[from..from + n];
    size := (n + d) / 8;
    if size * 8 != n + d {
      size := size + 1;
    }
    SplicedEnds(was, d, x);
    var i := from;
    var k := 0;
    while i < n + from
      invariant from <= i <= n + from && k == i - from
      invariant BitsOf(dst[..]) == Spliced(was, d, x[..k])
      invariant BitsOf(src[..])[from..from + n] == x
    {
      var at := d + k;
      ghost var before := dst[..];
      BitStored(before, at, x[k]);
      SplicedMore(was, d, x, k);
      BitAt(src[..], i);
      if Bit(src[i / 8], i % 8) {
        dst[at / 8] := WithBit(dst[at / 8], at % 8, true);
      } else {
        dst[at / 8] := WithBit(dst[at / 8], at % 8, false);
      }
      assert dst[..] == before[at / 8 := WithBit(before[at / 8], at % 8, x[k])];
      i, k := i + 1, k + 1;
    }
  }

  lemma BitAt(s: Bytes, k: nat)
    requires k < 8 * |s|
    ensures BitsOf(s)[k] == Bit(s[k / 8], k % 8)
  {
  }
}
