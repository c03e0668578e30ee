/** The AES class of algo/aes.cxx. */
module Aes {
  import opened Bytes
  import opened Gf256
  import opened AesCipher
  import opened AesKey
  import opened AesState
  import opened AesModes

  const BLOCK := 16

  /** The block function of a key. */
  function Encryption(key: Bytes, nk: nat): BlockFn
    requires nk in {4, 6, 8} && |key| == 4 * nk
  {
    (b: Block) => Cipher(b, ExpandedKey(key, nk, 4 * (nk + 7)), nk + 6)
  }

  function Decryption(key: Bytes, nk: nat): BlockFn
    requires nk in {4, 6, 8} && |key| == 4 * nk
  {
    (b: Block) => InvCipher(b, ExpandedKey(key, nk, 4 * (nk + 7)), nk + 6)
  }

  /** For every key of each supported length, block decryption undoes block encryption. */
  lemma DecryptionUndoes(key: Bytes, nk: nat)
    requires nk in {4, 6, 8} && |key| == 4 * nk
    ensures Undoes(Decryption(key, nk), Encryption(key, nk))
  {
    hide Cipher, InvCipher, ExpandedKey;
    var w := ExpandedKey(key, nk, 4 * (nk + 7));
    forall b: Block
      ensures Decryption(key, nk)(Encryption(key, nk)(b)) == b
    {
      InvCipherInverts(b, w, nk + 6);
    }
  }

  /** Whatever the mode, decrypting what was encrypted gives the message followed by zeros. */
  lemma ModesRoundTrip(key: Bytes, nk: nat, iv: Block, m: Bytes)
    requires nk in {4, 6, 8} && |key| == 4 * nk && |m| <= 0xFFFF_FFF0
    ensures var e, d, p := Encryption(key, nk), Decryption(key, nk), ZeroPadded(m);
            && EcbEncrypt(d, EcbEncrypt(e, p)) == p
            && CbcDecrypt(d, iv, CbcEncrypt(e, iv, p)) == p
            && CfbDecrypt(e, iv, CfbEncrypt(e, iv, p)) == p
  {
    hide ZeroPadded, Encryption, Decryption;
    DecryptionUndoes(key, nk);
    EcbRoundTrip(Decryption(key, nk), Encryption(key, nk), ZeroPadded(m));
    CbcRoundTrip(Decryption(key, nk), Encryption(key, nk), iv, ZeroPadded(m));
    CfbRoundTrip(Encryption(key, nk), iv, ZeroPadded(m));
  }

  datatype Result<T> = Ok(value: T) | Err(error: string)

  lemma WholeOf(s: Bytes, i: nat)
    requires i == |s|
    ensures s[..i] == s
  {
  }

  class AES {
    const Nb: nat
    const Nk: nat
    const Nr: nat
    const blockBytesLen: nat

    ghost predicate Valid() {
      Nb == 4 && Nk in {4, 6, 8} && Nr == Nk + 6 && blockBytesLen == BLOCK
    }

    constructor (nk: nat, nr: nat)
      ensures Nb == 4 && Nk == nk && Nr == nr && blockBytesLen == 4 * Nb
    {
      Nb := 4;
      Nk := nk;
      Nr := nr;
      blockBytesLen := 16;
    }

    /** The key length is given in bits; others than 128, 192 and 256 are refused. */
    static method Create(keyLen: int) returns (r: Result<AES>)
      ensures r.Ok? <==> keyLen in {128, 192, 256}
      ensures r.Ok? ==> r.value.Valid() && 32 * r.value.Nk == keyLen
    {
      if keyLen == 128 {
        var a := new AES(4, 10);
        r := Ok(a);
      } else if keyLen == 192 {
        var a := new AES(6, 12);
        r := Ok(a);
      } else if keyLen == 256 {
        var a := new AES(8, 14);
        r := Ok(a);
      } else {
        r := Err("Incorrect key length");
      }
    }

    /** The rounds on a loaded state. */
    method EncryptState(state: array<Byte>, w: array<Byte>)
      requires Valid() && state.Length == 16 && w.Length == 16 * (Nr + 1) && state != w
      modifies state
      ensures state[..] == AllRounds(old(state[..]), w[..], Nr)
    {
      hide Rounds, SubBytesOf, ShiftRowsOf, MixColumnsOf, AddRoundKeyOf;
      ghost var s0 := state[..];
      AddRoundKey(state, w, 0);
      RoundsEnd(s0, w[..]);
      var round := 1;
      while round <= Nr - 1
        invariant 1 <= round <= Nr && w[..] == old(w[..])
        invariant state[..] == Rounds(s0, w[..], round - 1)
      {
        RoundsStep(s0, w[..], round - 1);
        SubBytes(state);
        ShiftRows(state);
        MixColumns(state);
        AddRoundKey(state, w, round * 4 * Nb);
        round := round + 1;
      }
      SubBytes(state);
      ShiftRows(state);
      AddRoundKey(state, w, Nr * 4 * Nb);
    }

    method EncryptBlock(inp: array<Byte>, inOff: nat, out: array<Byte>, outOff: nat, key: array<Byte>)
      requires Valid() && key.Length >= 4 * Nk
      requires inOff + 16 <= inp.Length && outOff + 16 <= out.Length
      modifies out
      ensures out[..] == Patched(old(out[..]), outOff, Encryption(old(key[..4 * Nk]), Nk)(old(inp[inOff..inOff + 16])))
    {
      hide ExpandedKey, AllRounds, Transposed, Patched;
      ghost var b: Block := inp[inOff..inOff + 16];
      var w := new Byte[4 * Nb * (Nr + 1)];
      KeyExpansion(key, w, Nk, Nr);
      var state := new Byte[16];
      assert inp[inOff..inOff + 16] == b;
      LoadState(inp, inOff, state);
      EncryptState(state, w);
      UnloadState(state, out, outOff);
      PatchedUnfold(old(out[..]), outOff, Transposed(state[..]));
    }

    /** The inverse rounds on a loaded state. */
    method DecryptState(state: array<Byte>, w: array<Byte>)
      requires Valid() && state.Length == 16 && w.Length == 16 * (Nr + 1) && state != w
      modifies state
      ensures state[..] == AllInvRounds(old(state[..]), w[..], Nr)
    {
      hide InvRounds, InvSubBytesOf, InvShiftRowsOf, InvMixColumnsOf, AddRoundKeyOf;
      ghost var s0 := state[..];
      AddRoundKey(state, w, Nr * 4 * Nb);
      ghost var s1 := state[..];
      var round := Nr - 1;
      while round >= 1
        invariant 0 <= round <= Nr - 1 && w[..] == old(w[..])
        invariant InvRounds(state[..], w[..], round) == InvRounds(s1, w[..], Nr - 1)
      {
        InvRoundsStep(state[..], w[..], round);
        InvSubBytes(state);
        InvShiftRows(state);
        AddRoundKey(state, w, round * 4 * Nb);
        InvMixColumns(state);
        round := round - 1;
      }
      RoundsEnd(state[..], w[..]);
      InvSubBytes(state);
      InvShiftRows(state);
      AddRoundKey(state, w, 0);
    }

    method DecryptBlock(inp: array<Byte>, inOff: nat, out: array<Byte>, outOff: nat, key: array<Byte>)
      requires Valid() && key.Length >= 4 * Nk
      requires inOff + 16 <= inp.Length && outOff + 16 <= out.Length
      modifies out
      ensures out[..] == Patched(old(out[..]), outOff, Decryption(old(key[..4 * Nk]), Nk)(old(inp[inOff..inOff + 16])))
    {
      hide ExpandedKey, AllInvRounds, Transposed, Patched;
      ghost var b: Block := inp[inOff..inOff + 16];
      var w := new Byte[4 * Nb * (Nr + 1)];
      KeyExpansion(key, w, Nk, Nr);
      var state := new Byte[16];
      assert inp[inOff..inOff + 16] == b;
      LoadState(inp, inOff, state);
      DecryptState(state, w);
      UnloadState(state, out, outOff);
      PatchedUnfold(old(out[..]), outOff, Transposed(state[..]));
    }

    method GetPaddingLength(len: nat) returns (lengthWithPadding: nat)
      requires Valid() && len < 0x1_0000_0000
      ensures lengthWithPadding == PaddingLength(len)
    {
      lengthWithPadding := len / blockBytesLen;
      if len % blockBytesLen != 0 {
        lengthWithPadding := lengthWithPadding + 1;
      }
      lengthWithPadding := lengthWithPadding * blockBytesLen % 0x1_0000_0000;
    }

    method PaddingNulls(inp: array<Byte>, inLen: nat, alignLen: nat) returns (alignIn: array<Byte>)
      requires inLen <= inp.Length && inLen <= 0xFFFF_FFF0 && alignLen == PaddingLength(inLen)
      ensures fresh(alignIn) && alignIn[..] == ZeroPadded(inp[..inLen])
    {
      PaddingLengthIsLeast(inLen);
      alignIn := new Byte[alignLen];
      Memcpy(alignIn, 0, inp, 0, inLen);
      var k := inLen;
      while k < alignLen
        invariant inLen <= k <= alignLen
        invariant alignIn[..inLen] == inp[..inLen]
        invariant forall j :: inLen <= j < k ==> alignIn[j] == 0
      {
        alignIn[k] := 0;
        k := k + 1;
      }
      var m := inp[..inLen];
      assert alignIn[..] == m + seq(alignLen - inLen, _ => 0 as Byte);
    }

    static method Memcpy(dst: array<Byte>, dstOff: nat, src: array<Byte>, srcOff: nat, n: nat)
      requires dstOff + n <= dst.Length && srcOff + n <= src.Length && dst != src
      modifies dst
      ensures dst[..] == old(dst[..dstOff]) + src[srcOff..srcOff + n] + old(dst[dstOff + n..])
      ensures n == dst.Length ==> dst[..] == src[srcOff..srcOff + n]
    {
      var k := 0;
      while k < n
        invariant 0 <= k <= n
        invariant forall j :: 0 <= j < dst.Length ==>
          dst[j] == if dstOff <= j < dstOff + k then src[srcOff + j - dstOff] else old(dst[j])
      {
        dst[dstOff + k] := src[srcOff + k];
        k := k + 1;
      }
    }

    /** c = a xor b over one block; c may be one of a and b in place. */
    method XorBlocks(a: array<Byte>, aOff: nat, b: array<Byte>, bOff: nat, c: array<Byte>, cOff: nat, len: nat)
      requires len == 16 && aOff + len <= a.Length && bOff + len <= b.Length && cOff + len <= c.Length
      requires (a == c ==> aOff == cOff) && (b == c ==> bOff == cOff)
      modifies c
      ensures c[..] == Patched(old(c[..]), cOff, XorBlock(old(a[aOff..aOff + 16]), old(b[bOff..bOff + 16])))
    {
      hide Xor;
      ghost var x, y := a[aOff..aOff + 16], b[bOff..bOff + 16];
      var i := 0;
      while i < len
        invariant 0 <= i <= len
        invariant c[..cOff] == old(c[..cOff]) && c[cOff + 16..] == old(c[cOff + 16..])
        invariant forall j :: 0 <= j < i ==> c[cOff + j] == Xor(x[j], y[j])
        invariant forall j :: i <= j < len ==> a[aOff + j] == x[j] && b[bOff + j] == y[j]
      {
        c[cOff + i] := Xor(a[aOff + i], b[bOff + i]);
        i := i + 1;
      }
      assert c[cOff..cOff + 16] == XorBlock(x, y);
      assert c[..] == c[..cOff] + c[cOff..cOff + 16] + c[cOff + 16..];
    }

    method EncryptECB(inp: array<Byte>, inLen: nat, key: array<Byte>)
      returns (out: array<Byte>, outLen: nat)
      requires Valid() && key.Length >= 4 * Nk && inLen <= inp.Length && inLen <= 0xFFFF_FFF0
      ensures fresh(out) && outLen == out.Length
      ensures out[..] == EcbEncrypt(Encryption(key[..4 * Nk], Nk), ZeroPadded(inp[..inLen]))
    {
      hide Encryption, Decryption, ZeroPadded, Patched, XorBlock, Chained, AtBlock, EcbEncrypt;
      ghost var p, e := ZeroPadded(inp[..inLen]), Encryption(key[..4 * Nk], Nk);
      outLen := GetPaddingLength(inLen);
      var alignIn := PaddingNulls(inp, inLen, outLen);
      out := new Byte[outLen];
      EcbEncryptStart(e);
      var i := 0;
      while i < outLen
        invariant 0 <= i <= outLen && i % 16 == 0
        invariant alignIn[..] == p
        invariant out[..i] == EcbEncrypt(e, p[..i])
      {
        RoomForBlock(p, i);
        EcbStep(e, p, out[..], i);
        EncryptBlock(alignIn, i, out, i, key);
        i := i + blockBytesLen;
      }
      WholeOf(out[..], i);
      WholeOf(p, i);
    }

    method DecryptECB(inp: array<Byte>, inLen: nat, key: array<Byte>) returns (out: array<Byte>)
      requires Valid() && key.Length >= 4 * Nk && inLen <= inp.Length && inLen % 16 == 0
      ensures fresh(out) && out.Length == inLen
      ensures out[..] == EcbEncrypt(Decryption(key[..4 * Nk], Nk), inp[..inLen])
    {
      hide Encryption, Decryption, ZeroPadded, Patched, XorBlock, Chained, AtBlock, EcbEncrypt;
      ghost var c, d := inp[..inLen], Decryption(key[..4 * Nk], Nk);
      out := new Byte[inLen];
      EcbEncryptStart(d);
      var i := 0;
      while i < inLen
        invariant 0 <= i <= inLen && i % 16 == 0
        invariant inp[..inLen] == c && out[..i] == EcbEncrypt(d, c[..i])
      {
        RoomForBlock(c, i);
        EcbStep(d, c, out[..], i);
        assert inp[..inLen][i..i + 16] == inp[i..i + 16];
        DecryptBlock(inp, i, out, i, key);
        i := i + blockBytesLen;
      }
      WholeOf(out[..], i);
      WholeOf(c, i);
    }

    method EncryptCBC(inp: array<Byte>, inLen: nat, key: array<Byte>, iv: array<Byte>)
      returns (out: array<Byte>, outLen: nat)
      requires Valid() && key.Length >= 4 * Nk && inLen <= inp.Length && inLen <= 0xFFFF_FFF0 && iv.Length >= 16
      ensures fresh(out) && outLen == out.Length
      ensures out[..] == CbcEncrypt(Encryption(key[..4 * Nk], Nk), iv[..16], ZeroPadded(inp[..inLen]))
    {
      hide Encryption, Decryption, ZeroPadded, Patched, XorBlock, Chained, AtBlock, CbcEncrypt;
      ghost var p, e := ZeroPadded(inp[..inLen]), Encryption(key[..4 * Nk], Nk);
      ghost var v: Block := iv[..16];
      outLen := GetPaddingLength(inLen);
      var alignIn := PaddingNulls(inp, inLen, outLen);
      out := new Byte[outLen];
      var block := new Byte[blockBytesLen];
      Memcpy(block, 0, iv, 0, blockBytesLen);
      CbcEncryptStart(e, v);
      var i := 0;
      while i < outLen
        invariant 0 <= i <= outLen && i % 16 == 0
        invariant alignIn[..] == p
        invariant out[..i] == CbcEncrypt(e, v, p[..i])
        invariant block.Length == 16 && block[..] == Chained(v, out[..i])
      {
        RoomForBlock(p, i);
        CbcEncryptStep(e, v, p, out[..], i);
        ghost var chain: Block := block[..];
        assert block[0..16] == chain && alignIn[i..i + 16] == p[i..i + 16];
        XorBlocks(block, 0, alignIn, i, block, 0, blockBytesLen);
        PatchedWhole(chain, XorBlock(chain, p[i..i + 16]));
        assert block[0..16] == block[..];
        EncryptBlock(block, 0, out, i, key);
        Memcpy(block, 0, out, i, blockBytesLen);
        i := i + blockBytesLen;
      }
      WholeOf(out[..], i);
      WholeOf(p, i);
    }

    method DecryptCBC(inp: array<Byte>, inLen: nat, key: array<Byte>, iv: array<Byte>) returns (out: array<Byte>)
      requires Valid() && key.Length >= 4 * Nk && inLen <= inp.Length && inLen % 16 == 0 && iv.Length >= 16
      ensures fresh(out) && out.Length == inLen
      ensures out[..] == CbcDecrypt(Decryption(key[..4 * Nk], Nk), iv[..16], inp[..inLen])
    {
      hide Encryption, Decryption, ZeroPadded, Patched, XorBlock, Chained, AtBlock, CbcDecrypt;
      ghost var c, d := inp[..inLen], Decryption(key[..4 * Nk], Nk);
      ghost var v: Block := iv[..16];
      out := new Byte[inLen];
      var block := new Byte[blockBytesLen];
      Memcpy(block, 0, iv, 0, blockBytesLen);
      CbcDecryptStart(d, v);
      var i := 0;
      while i < inLen
        invariant 0 <= i <= inLen && i % 16 == 0
        invariant inp[..inLen] == c && out[..i] == CbcDecrypt(d, v, c[..i])
        invariant block.Length == 16 && block[..] == Chained(v, c[..i])
      {
        RoomForBlock(c, i);
        CbcDecryptStep(d, v, c, out[..], i);
        assert inp[..inLen][i..i + 16] == inp[i..i + 16];
        assert block[0..16] == block[..];
        PatchedTwice(out[..], i, d(c[i..i + 16]), XorBlock(block[..], d(c[i..i + 16])));
        DecryptBlock(inp, i, out, i, key);
        XorBlocks(block, 0, out, i, out, i, blockBytesLen);
        Memcpy(block, 0, inp, i, blockBytesLen);
        i := i + blockBytesLen;
      }
      WholeOf(out[..], i);
      WholeOf(c, i);
    }

    method EncryptCFB(inp: array<Byte>, inLen: nat, key: array<Byte>, iv: array<Byte>)
      returns (out: array<Byte>, outLen: nat)
      requires Valid() && key.Length >= 4 * Nk && inLen <= inp.Length && inLen <= 0xFFFF_FFF0 && iv.Length >= 16
      ensures fresh(out) && outLen == out.Length
      ensures out[..] == CfbEncrypt(Encryption(key[..4 * Nk], Nk), iv[..16], ZeroPadded(inp[..inLen]))
    {
      hide Encryption, Decryption, ZeroPadded, Patched, XorBlock, Chained, AtBlock, CfbEncrypt;
      ghost var p, e := ZeroPadded(inp[..inLen]), Encryption(key[..4 * Nk], Nk);
      ghost var v: Block := iv[..16];
      outLen := GetPaddingLength(inLen);
      var alignIn := PaddingNulls(inp, inLen, outLen);
      out := new Byte[outLen];
      var block := new Byte[blockBytesLen];
      Memcpy(block, 0, iv, 0, blockBytesLen);
      var encryptedBlock := new Byte[blockBytesLen];
      CfbEncryptStart(e, v);
      var i := 0;
      while i < outLen
        invariant 0 <= i <= outLen && i % 16 == 0
        invariant alignIn[..] == p
        invariant out[..i] == CfbEncrypt(e, v, p[..i])
        invariant block.Length == 16 && block[..] == Chained(v, out[..i])
        invariant encryptedBlock.Length == 16
      {
        RoomForBlock(p, i);
        CfbEncryptStep(e, v, p, out[..], i);
        assert block[0..16] == block[..] && alignIn[i..i + 16] == p[i..i + 16];
        PatchedWhole(encryptedBlock[..], e(block[..]));
        EncryptBlock(block, 0, encryptedBlock, 0, key);
        assert encryptedBlock[0..16] == encryptedBlock[..];
        XorBlocks(alignIn, i, encryptedBlock, 0, out, i, blockBytesLen);
        Memcpy(block, 0, out, i, blockBytesLen);
        i := i + blockBytesLen;
      }
      WholeOf(out[..], i);
      WholeOf(p, i);
    }

    method DecryptCFB(inp: array<Byte>, inLen: nat, key: array<Byte>, iv: array<Byte>) returns (out: array<Byte>)
      requires Valid() && key.Length >= 4 * Nk && inLen <= inp.Length && inLen % 16 == 0 && iv.Length >= 16
      ensures fresh(out) && out.Length == inLen
      ensures out[..] == CfbDecrypt(Encryption(key[..4 * Nk], Nk), iv[..16], inp[..inLen])
    {
      hide Encryption, Decryption, ZeroPadded, Patched, XorBlock, Chained, AtBlock, CfbDecrypt;
      ghost var c, e := inp[..inLen], Encryption(key[..4 * Nk], Nk);
      ghost var v: Block := iv[..16];
      out := new Byte[inLen];
      var block := new Byte[blockBytesLen];
      Memcpy(block, 0, iv, 0, blockBytesLen);
      var encryptedBlock := new Byte[blockBytesLen];
      CfbDecryptStart(e, v);
      var i := 0;
      while i < inLen
        invariant 0 <= i <= inLen && i % 16 == 0
        invariant inp[..inLen] == c && out[..i] == CfbDecrypt(e, v, c[..i])
        invariant block.Length == 16 && block[..] == Chained(v, c[..i])
        invariant encryptedBlock.Length == 16
      {
        RoomForBlock(c, i);
        CfbDecryptStep(e, v, c, out[..], i);
        assert inp[..inLen][i..i + 16] == inp[i..i + 16];
        assert block[0..16] == block[..];
        PatchedWhole(encryptedBlock[..], e(block[..]));
        EncryptBlock(block, 0, encryptedBlock, 0, key);
        assert encryptedBlock[0..16] == encryptedBlock[..];
        XorBlocks(inp, i, encryptedBlock, 0, out, i, blockBytesLen);
        Memcpy(block, 0, inp, i, blockBytesLen);
        i := i + blockBytesLen;
      }
      WholeOf(out[..], i);
      WholeOf(c, i);
    }
  }
}
