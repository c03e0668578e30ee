/** The check values of the two CRCs of algo/crc.cxx: by what they make of the nine digits "123456789" catalogues tell CRCs
    apart. */
module CrcCheck {
  import opened Bytes
  import opened Crc

  lemma Steps32()
    ensures FeedByte(0xffffffff, 49) == 0x7c231048 && FeedByte(0x7c231048, 50) == 0xb0acbb32
    ensures FeedByte(0xb0acbb32, 51) == 0x77b79c2d && FeedByte(0x77b79c2d, 52) == 0x641c1f5c
    ensures FeedByte(0x641c1f5c, 53) == 0x340ac5e3 && FeedByte(0x340ac5e3, 54) == 0xf68d2c9e
    ensures FeedByte(0xf68d2c9e, 55) == 0xaffc9660 && FeedByte(0xaffc9660, 56) == 0x651f2550
    ensures FeedByte(0x651f2550, 57) == 0x340bc6d9
  {
  }

  lemma Steps8()
    ensures FeedByte8(0xff, 49) == 0x7a && FeedByte8(0x7a, 50) == 0x7e
    ensures FeedByte8(0x7e, 51) == 0xe8 && FeedByte8(0xe8, 52) == 0x85
    ensures FeedByte8(0x85, 53) == 0xc4 && FeedByte8(0xc4, 54) == 0x57
    ensures FeedByte8(0x57, 55) == 0x48 && FeedByte8(0x48, 56) == 0x54
    ensures FeedByte8(0x54, 57) == 0xd0
  {
  }

  lemma Appended(c: bv32, d: Byte, s: Bytes, b: Byte)
    ensures Register(c, s + [b]) == FeedByte(Register(c, s), b) && Register(c, []) == c
    ensures Register8(d, s + [b]) == FeedByte8(Register8(d, s), b) && Register8(d, []) == d
  {
    assert (s + [b])[..|s|] == s;
  }

  lemma NineBytes(c: bv32, d: Byte)
    ensures var s: Bytes := [49, 50, 51, 52, 53, 54, 55, 56, 57];
            && Register(c, s) == FeedByte(FeedByte(FeedByte(FeedByte(FeedByte(FeedByte(FeedByte(FeedByte(FeedByte(
                 c, 49), 50), 51), 52), 53), 54), 55), 56), 57)
            && Register8(d, s) == FeedByte8(FeedByte8(FeedByte8(FeedByte8(FeedByte8(FeedByte8(FeedByte8(FeedByte8(FeedByte8(
                 d, 49), 50), 51), 52), 53), 54), 55), 56), 57)
  {
    hide FeedByte, FeedByte8, Register, Register8;
    var s: Bytes := [49, 50, 51, 52, 53, 54, 55, 56, 57];
    assert s[..0] == [] && s[..9] == s;
    assert s[..1] == s[..0] + [49];
    Appended(c, d, s[..0], 49);
    assert s[..2] == s[..1] + [50];
    Appended(c, d, s[..1], 50);
    assert s[..3] == s[..2] + [51];
    Appended(c, d, s[..2], 51);
    assert s[..4] == s[..3] + [52];
    Appended(c, d, s[..3], 52);
    assert s[..5] == s[..4] + [53];
    Appended(c, d, s[..4], 53);
    assert s[..6] == s[..5] + [54];
    Appended(c, d, s[..5], 54);
    assert s[..7] == s[..6] + [55];
    Appended(c, d, s[..6], 55);
    assert s[..8] == s[..7] + [56];
    Appended(c, d, s[..7], 56);
    assert s[..9] == s[..8] + [57];
    Appended(c, d, s[..8], 57);
  }

  /** CRC-32. */
  lemma CheckValue32()
    ensures Crc32([49, 50, 51, 52, 53, 54, 55, 56, 57]) == 0xcbf43926
  {
    NineBytes(0xffffffff, 0);
    Steps32();
    hide FeedByte, Register;
  }

  /** CRC-8/ROHC; algo/crc.cxx gives its complement. */
  lemma CheckValue8()
    ensures Register8(0xff, [49, 50, 51, 52, 53, 54, 55, 56, 57]) == 0xd0
    ensures Crc8(0, [49, 50, 51, 52, 53, 54, 55, 56, 57]) == 0x2f
  {
    NineBytes(0, 0xff);
    Steps8();
    hide FeedByte8, Register8;
  }
}
