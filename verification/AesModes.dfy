/** ECB, CBC and CFB chaining (sections 6.1 to 6.3 of SP 800-38A) over any block function. */
module AesModes {
  import opened Bytes
  import opened Gf256
  import opened AesCipher

  type BlockFn = Block -> Block

  function XorBlock(a: Block, b: Block): Block {
    seq(16, k requires 0 <= k < 16 => Xor(a[k], b[k]))
  }

  /** Whole blocks. */
  predicate Aligned(p: Bytes) {
    |p| % 16 == 0
  }

  function Last(p: Bytes): Block
    requires Aligned(p) && p != []
  {
    p[|p| - 16..]
  }

  function Init(p: Bytes): (r: Bytes)
    requires Aligned(p) && p != []
    ensures Aligned(r) && |r| == |p| - 16 && p == r + Last(p)
  {
    p[..|p| - 16]
  }

  /** The block the next one is chained with. */
  function Chained(iv: Block, c: Bytes): Block
    requires Aligned(c)
  {
    if c == [] then iv else Last(c)
  }

  function EcbEncrypt(e: BlockFn, p: Bytes): (r: Bytes)
    requires Aligned(p)
    ensures |r| == |p|
    decreases |p|
  {
    if p == [] then [] else EcbEncrypt(e, Init(p)) + e(Last(p))
  }

  function CbcEncrypt(e: BlockFn, iv: Block, p: Bytes): (r: Bytes)
    requires Aligned(p)
    ensures |r| == |p|
    decreases |p|
  {
    if p == [] then []
    else
      var c := CbcEncrypt(e, iv, Init(p));
      c + e(XorBlock(Chained(iv, c), Last(p)))
  }

  function CbcDecrypt(d: BlockFn, iv: Block, c: Bytes): (r: Bytes)
    requires Aligned(c)
    ensures |r| == |c|
    decreases |c|
  {
    if c == [] then [] else CbcDecrypt(d, iv, Init(c)) + XorBlock(Chained(iv, Init(c)), d(Last(c)))
  }

  function CfbEncrypt(e: BlockFn, iv: Block, p: Bytes): (r: Bytes)
    requires Aligned(p)
    ensures |r| == |p|
    decreases |p|
  {
    if p == [] then []
    else
      var c := CfbEncrypt(e, iv, Init(p));
      c + XorBlock(Last(p), e(Chained(iv, c)))
  }

  function CfbDecrypt(e: BlockFn, iv: Block, c: Bytes): (r: Bytes)
    requires Aligned(c)
    ensures |r| == |c|
    decreases |c|
  {
    if c == [] then [] else CfbDecrypt(e, iv, Init(c)) + XorBlock(Last(c), e(Chained(iv, Init(c))))
  }

  // ---------------------------------------------------------------------------------------------
  // Round trips

  ghost predicate Undoes(d: BlockFn, e: BlockFn) {
    forall b: Block :: d(e(b)) == b
  }

  lemma XorBlockTwice(a: Block, b: Block)
    ensures XorBlock(a, XorBlock(a, b)) == b
    ensures XorBlock(XorBlock(a, b), b) == a
  {
    hide Xor;
    forall k | 0 <= k < 16
      ensures Xor(a[k], Xor(a[k], b[k])) == b[k] && Xor(Xor(a[k], b[k]), b[k]) == a[k]
    {
      XorLaws(b[k], a[k], 0);
      XorLaws(a[k], b[k], 0);
      XorLaws(a[k], Xor(a[k], b[k]), 0);
    }
  }

  lemma Appended(c: Bytes, b: Block)
    requires Aligned(c)
    ensures Aligned(c + b) && Init(c + b) == c && Last(c + b) == b
  {
  }

  lemma {:induction false} EcbRoundTrip(d: BlockFn, e: BlockFn, p: Bytes)
    requires Aligned(p) && Undoes(d, e)
    ensures EcbEncrypt(d, EcbEncrypt(e, p)) == p
    decreases |p|
  {
    hide Last;
    if p != [] {
      EcbRoundTrip(d, e, Init(p));
      Appended(EcbEncrypt(e, Init(p)), e(Last(p)));
    }
  }

  lemma {:induction false} CbcRoundTrip(d: BlockFn, e: BlockFn, iv: Block, p: Bytes)
    requires Aligned(p) && Undoes(d, e)
    ensures CbcDecrypt(d, iv, CbcEncrypt(e, iv, p)) == p
    decreases |p|
  {
    hide Last, XorBlock;
    if p != [] {
      CbcRoundTrip(d, e, iv, Init(p));
      var c := CbcEncrypt(e, iv, Init(p));
      Appended(c, e(XorBlock(Chained(iv, c), Last(p))));
      XorBlockTwice(Chained(iv, c), Last(p));
    }
  }

  /** CFB needs no inverse of the block function. */
  lemma {:induction false} CfbRoundTrip(e: BlockFn, iv: Block, p: Bytes)
    requires Aligned(p)
    ensures CfbDecrypt(e, iv, CfbEncrypt(e, iv, p)) == p
    decreases |p|
  {
    hide Last, XorBlock;
    if p != [] {
      CfbRoundTrip(e, iv, Init(p));
      var c := CfbEncrypt(e, iv, Init(p));
      Appended(c, XorBlock(Last(p), e(Chained(iv, c))));
      XorBlockTwice(Last(p), e(Chained(iv, c)));
    }
  }

  // ---------------------------------------------------------------------------------------------
  // Block by block

  /** Block k of a message. */
  function BlockAt(p: Bytes, k: nat): Block
    requires 16 * (k + 1) <= |p|
  {
    p[16 * k..16 * (k + 1)]
  }

  lemma InitBlock(p: Bytes, k: nat)
    requires Aligned(p) && 16 * (k + 1) <= |p|
    ensures 16 * (k + 2) <= |p| ==> BlockAt(Init(p), k) == BlockAt(p, k)
    ensures |p| < 16 * (k + 2) ==> |p| == 16 * (k + 1) && BlockAt(p, k) == Last(p)
  {
  }

  /** ECB encrypts every block by itself. */
  lemma {:induction false} EcbBlock(e: BlockFn, p: Bytes, k: nat)
    requires Aligned(p) && 16 * (k + 1) <= |p|
    ensures BlockAt(EcbEncrypt(e, p), k) == e(BlockAt(p, k))
    decreases |p|
  {
    hide Last;
    var c := EcbEncrypt(e, p);
    Appended(EcbEncrypt(e, Init(p)), e(Last(p)));
    InitBlock(p, k);
    InitBlock(c, k);
    if 16 * (k + 2) <= |p| {
      EcbBlock(e, Init(p), k);
    }
  }

  /** CBC encrypts the sum of a block and the ciphertext block before it, for the first one the initialization vector. */
  lemma {:induction false} CbcBlock(e: BlockFn, iv: Block, p: Bytes, k: nat)
    requires Aligned(p) && 16 * (k + 1) <= |p|
    ensures var c := CbcEncrypt(e, iv, p);
            BlockAt(c, k) == e(XorBlock(if k == 0 then iv else BlockAt(c, k - 1), BlockAt(p, k)))
    decreases |p|
  {
    hide Last, XorBlock;
    var before, c := CbcEncrypt(e, iv, Init(p)), CbcEncrypt(e, iv, p);
    Appended(before, e(XorBlock(Chained(iv, before), Last(p))));
    InitBlock(p, k);
    InitBlock(c, k);
    if 16 * (k + 2) <= |p| {
      CbcBlock(e, iv, Init(p), k);
      if k > 0 { InitBlock(c, k - 1); }
    } else if k > 0 {
      InitBlock(c, k - 1);
      InitBlock(before, k - 1);
    }
  }

  /** CFB adds to each block the encrypted ciphertext block before it, the first one the encrypted vector. */
  lemma {:induction false} CfbBlock(e: BlockFn, iv: Block, p: Bytes, k: nat)
    requires Aligned(p) && 16 * (k + 1) <= |p|
    ensures var c := CfbEncrypt(e, iv, p);
            BlockAt(c, k) == XorBlock(BlockAt(p, k), e(if k == 0 then iv else BlockAt(c, k - 1)))
    decreases |p|
  {
    hide Last, XorBlock;
    var before, c := CfbEncrypt(e, iv, Init(p)), CfbEncrypt(e, iv, p);
    Appended(before, XorBlock(Last(p), e(Chained(iv, before))));
    InitBlock(p, k);
    InitBlock(c, k);
    if 16 * (k + 2) <= |p| {
      CfbBlock(e, iv, Init(p), k);
      if k > 0 { InitBlock(c, k - 1); }
    } else if k > 0 {
      InitBlock(c, k - 1);
      InitBlock(before, k - 1);
    }
  }

  // ---------------------------------------------------------------------------------------------
  // One turn of each chaining loop

  /** A buffer with the sixteen bytes at off replaced. */
  function Patched(s: Bytes, off: nat, b: Block): Bytes
    requires off + 16 <= |s|
  {
    s[..off] + b + s[off + 16..]
  }

  lemma PatchedUnfold(s: Bytes, off: nat, b: Block)
    requires off + 16 <= |s|
    ensures Patched(s, off, b) == s[..off] + b + s[off + 16..]
  {
  }

  lemma PatchedWhole(s: Block, b: Block)
    ensures Patched(s, 0, b) == b
  {
  }

  lemma PatchedTwice(s: Bytes, off: nat, a: Block, b: Block)
    requires off + 16 <= |s|
    ensures Patched(s, off, a)[off..off + 16] == a && Patched(Patched(s, off, a), off, b) == Patched(s, off, b)
  {
  }

  /** Position i is a block boundary with a whole block of an aligned buffer behind it. */
  predicate AtBlock(p: Bytes, i: nat) {
    Aligned(p) && i % 16 == 0 && i + 16 <= |p|
  }

  lemma RoomForBlock(p: Bytes, i: nat)
    requires Aligned(p) && i % 16 == 0 && i < |p|
    ensures AtBlock(p, i) && i + 16 <= |p| && (i + 16) % 16 == 0
  {
  }

  lemma PrefixGrows(p: Bytes, before: Bytes, i: nat, b: Block)
    requires AtBlock(p, i) && |before| == |p|
    ensures var after := Patched(before, i, b);
            && after[..i + 16] == before[..i] + b && after[i..i + 16] == b
            && Init(after[..i + 16]) == before[..i] && Last(after[..i + 16]) == b
    ensures Init(p[..i + 16]) == p[..i] && Last(p[..i + 16]) == p[i..i + 16]
  {
  }

  lemma EcbEncryptStart(e: BlockFn)
    ensures EcbEncrypt(e, []) == []
  {
  }

  lemma CbcEncryptStart(e: BlockFn, iv: Block)
    ensures CbcEncrypt(e, iv, []) == [] && Chained(iv, []) == iv
  {
  }

  lemma CbcDecryptStart(d: BlockFn, iv: Block)
    ensures CbcDecrypt(d, iv, []) == [] && Chained(iv, []) == iv
  {
  }

  lemma CfbEncryptStart(e: BlockFn, iv: Block)
    ensures CfbEncrypt(e, iv, []) == [] && Chained(iv, []) == iv
  {
  }

  lemma CfbDecryptStart(e: BlockFn, iv: Block)
    ensures CfbDecrypt(e, iv, []) == [] && Chained(iv, []) == iv
  {
  }

  lemma EcbStep(e: BlockFn, p: Bytes, before: Bytes, i: nat)
    requires AtBlock(p, i) && |before| == |p| && before[..i] == EcbEncrypt(e, p[..i])
    ensures Patched(before, i, e(p[i..i + 16]))[..i + 16] == EcbEncrypt(e, p[..i + 16])
  {
    hide Patched, Last;
    PrefixGrows(p, before, i, e(p[i..i + 16]));
  }

  lemma CbcEncryptStep(e: BlockFn, iv: Block, p: Bytes, before: Bytes, i: nat)
    requires AtBlock(p, i) && |before| == |p| && before[..i] == CbcEncrypt(e, iv, p[..i])
    ensures var after := Patched(before, i, e(XorBlock(Chained(iv, before[..i]), p[i..i + 16])));
            after[..i + 16] == CbcEncrypt(e, iv, p[..i + 16]) && after[i..i + 16] == Chained(iv, after[..i + 16])
  {
    hide Patched, Last, XorBlock;
    PrefixGrows(p, before, i, e(XorBlock(Chained(iv, before[..i]), p[i..i + 16])));
  }

  lemma CbcDecryptStep(d: BlockFn, iv: Block, c: Bytes, before: Bytes, i: nat)
    requires AtBlock(c, i) && |before| == |c| && before[..i] == CbcDecrypt(d, iv, c[..i])
    ensures var after := Patched(before, i, XorBlock(Chained(iv, c[..i]), d(c[i..i + 16])));
            after[..i + 16] == CbcDecrypt(d, iv, c[..i + 16]) && c[i..i + 16] == Chained(iv, c[..i + 16])
  {
    hide Patched, Last, XorBlock;
    PrefixGrows(c, before, i, XorBlock(Chained(iv, c[..i]), d(c[i..i + 16])));
  }

  lemma CfbEncryptStep(e: BlockFn, iv: Block, p: Bytes, before: Bytes, i: nat)
    requires AtBlock(p, i) && |before| == |p| && before[..i] == CfbEncrypt(e, iv, p[..i])
    ensures var after := Patched(before, i, XorBlock(p[i..i + 16], e(Chained(iv, before[..i]))));
            after[..i + 16] == CfbEncrypt(e, iv, p[..i + 16]) && after[i..i + 16] == Chained(iv, after[..i + 16])
  {
    hide Patched, Last, XorBlock;
    PrefixGrows(p, before, i, XorBlock(p[i..i + 16], e(Chained(iv, before[..i]))));
  }

  lemma CfbDecryptStep(e: BlockFn, iv: Block, c: Bytes, before: Bytes, i: nat)
    requires AtBlock(c, i) && |before| == |c| && before[..i] == CfbDecrypt(e, iv, c[..i])
    ensures var after := Patched(before, i, XorBlock(c[i..i + 16], e(Chained(iv, c[..i]))));
            after[..i + 16] == CfbDecrypt(e, iv, c[..i + 16]) && c[i..i + 16] == Chained(iv, c[..i + 16])
  {
    hide Patched, Last, XorBlock;
    PrefixGrows(c, before, i, XorBlock(c[i..i + 16], e(Chained(iv, c[..i]))));
  }

  // ---------------------------------------------------------------------------------------------
  // Padding

  /** GetPaddingLength with its 32-bit arithmetic. */
  function PaddingLength(len: nat): nat
    requires len < 0x1_0000_0000
  {
    (len / 16 + (if len % 16 != 0 then 1 else 0)) * 16 % 0x1_0000_0000
  }

  /** The padded length is the least multiple of 16 that holds the message exactly when that multiple fits 32 bits. */
  lemma PaddingLengthIsLeast(len: nat)
    requires len < 0x1_0000_0000
    ensures len <= 0xFFFF_FFF0 <==> len <= PaddingLength(len)
    ensures len <= 0xFFFF_FFF0 ==> PaddingLength(len) % 16 == 0 && PaddingLength(len) < len + 16
  {
  }

  /** The message followed by zeros up to a whole number of blocks. */
  function ZeroPadded(m: Bytes): (r: Bytes)
    requires |m| <= 0xFFFF_FFF0
    ensures Aligned(r) && |r| == PaddingLength(|m|) && m <= r
    ensures forall k :: |m| <= k < |r| ==> r[k] == 0
  {
    PaddingLengthIsLeast(|m|);
    m + seq(PaddingLength(|m|) - |m|, _ => 0 as Byte)
  }
}
