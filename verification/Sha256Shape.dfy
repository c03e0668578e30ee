/** SHA-256 (sections 5 and 6.2.2 of FIPS 180-4) with its rounds as recurrences over single words, and its messages and
    words byte by byte. */
module Sha256Shape {
  import opened Bytes
  import opened Blocks
  import opened Sha256Words
  import opened Sha256Length
  import opened Sha256Block
  import opened Sha256

  /** The eight working variables are the last four values of two words, and these follow one recurrence each. */
  lemma RoundsAreRecurrences(s: Digest, block: Bytes, t: nat)
    requires |block| == 64 && 3 <= t < 64
    ensures var p3, p2, p1 := RoundsUpTo(s, block, t - 3), RoundsUpTo(s, block, t - 2), RoundsUpTo(s, block, t - 1);
            var now, next := RoundsUpTo(s, block, t), RoundsUpTo(s, block, t + 1);
            var t1 := Add32(Add32(Add32(Add32(p3.e, BigSigma1(now.e)), Ch32(now.e, p1.e, p2.e)), AddConstant(t)),
                            Schedule(block, t));
            && now == Digest(now.a, p1.a, p2.a, p3.a, now.e, p1.e, p2.e, p3.e)
            && next.e == Add32(p3.a, t1)
            && next.a == Add32(t1, Add32(BigSigma0(now.a), Maj32(now.a, p1.a, p2.a)))
  {
    hide Add32, BigSigma0, BigSigma1, Ch32, Maj32, AddConstant, Schedule, RoundsUpTo;
    RoundsMore(s, block, t - 3);
    RoundsMore(s, block, t - 2);
    RoundsMore(s, block, t - 1);
    RoundsMore(s, block, t);
  }

  lemma RoundsMore(s: Digest, block: Bytes, t: nat)
    requires |block| == 64 && t < 64
    ensures RoundsUpTo(s, block, t + 1) == Round(RoundsUpTo(s, block, t), AddConstant(t), Schedule(block, t))
  {
    hide Round, AddConstant, Schedule;
  }

  /** The rounds start from the hash value so far and are added to it word by word. */
  lemma CompressAdds(s: Digest, block: Bytes)
    requires |block| == 64
    ensures var r, c := RoundsUpTo(s, block, 64), Compress(s, block);
            && RoundsUpTo(s, block, 0) == s
            && c.a == Add32(s.a, r.a) && c.b == Add32(s.b, r.b) && c.c == Add32(s.c, r.c) && c.d == Add32(s.d, r.d)
            && c.e == Add32(s.e, r.e) && c.f == Add32(s.f, r.f) && c.g == Add32(s.g, r.g) && c.h == Add32(s.h, r.h)
  {
    hide Add32, Round, AddConstant, Schedule;
  }

  /** The first sixteen words of the schedule are the block, high byte first; the others follow the recurrence. */
  lemma ScheduleLayout(block: Bytes, t: nat)
    requires |block| == 64 && t < 64
    ensures t < 16 ==>
              var w := Schedule(block, t);
              && w >> 24 == block[4 * t] as bv32 && (w >> 16) & 0xff == block[4 * t + 1] as bv32
              && (w >> 8) & 0xff == block[4 * t + 2] as bv32 && w & 0xff == block[4 * t + 3] as bv32
    ensures t >= 16 ==>
              Schedule(block, t) == Add32(Add32(Add32(SmallSigma1(Schedule(block, t - 2)), Schedule(block, t - 7)),
                                                SmallSigma0(Schedule(block, t - 15))), Schedule(block, t - 16))
  {
    hide Add32, SmallSigma0, SmallSigma1, WordOf;
    if t < 16 {
      HighFirst(block[4 * t], block[4 * t + 1], block[4 * t + 2], block[4 * t + 3]);
    }
  }

  lemma HighFirst(b0: Byte, b1: Byte, b2: Byte, b3: Byte)
    ensures var w := WordOf(b0, b1, b2, b3);
            && w >> 24 == b0 as bv32 && (w >> 16) & 0xff == b1 as bv32
            && (w >> 8) & 0xff == b2 as bv32 && w & 0xff == b3 as bv32
  {
  }

  /** The digest is the eight words one after the other, high byte first. */
  lemma DigestLayout(s: Digest)
    ensures DigestBytes(s) == WordBytes(s.a) + WordBytes(s.b) + WordBytes(s.c) + WordBytes(s.d)
                              + WordBytes(s.e) + WordBytes(s.f) + WordBytes(s.g) + WordBytes(s.h)
    ensures WordBytes(s.a)[0] as bv32 == s.a >> 24 && WordBytes(s.a)[3] as bv32 == s.a & 0xff
  {
    HighByteFirst(s.a);
    hide WordBytes;
    var ab := WordBytes(s.a) + WordBytes(s.b);
    var af := ab + WordBytes(s.c) + WordBytes(s.d) + WordBytes(s.e) + WordBytes(s.f);
    assert DigestPrefix(s, 1) == [] + WordBytes(s.a) == WordBytes(s.a);
    assert DigestPrefix(s, 2) == ab;
    assert DigestPrefix(s, 4) == ab + WordBytes(s.c) + WordBytes(s.d);
    assert DigestPrefix(s, 6) == af;
    assert DigestPrefix(s, 8) == af + WordBytes(s.g) + WordBytes(s.h);
  }

  lemma HighByteFirst(x: bv32)
    ensures WordBytes(x)[0] as bv32 == x >> 24 && WordBytes(x)[3] as bv32 == x & 0xff
  {
  }

  /** The i-th byte from the right is the i-th digit to the base 256. */
  lemma {:induction false} BigEndianAt(n: nat, k: nat, i: nat)
    requires i < k
    ensures BigEndian(n, k)[k - 1 - i] == ByteOf(n / Pow256(i))
    decreases k
  {
    hide ByteOf;
    if i == 0 {
      assert n / Pow256(0) == n;
    } else {
      BigEndianAt(n / 256, k - 1, i - 1);
      QuotientTwice(n, Pow256(i - 1));
    }
  }

  /** The message, a one bit, zeros, and the length in bits in eight bytes, in as few blocks as will do. */
  lemma PaddedLayout(m: Bytes)
    ensures var p := Padded(m);
            && |m| + 9 <= |p| < |m| + 73 && |p| % 64 == 0
            && p[..|m|] == m && p[|m|] == 0x80 && (forall k :: |m| < k < |p| - 8 ==> p[k] == 0)
            && p[|p| - 8..] == BigEndian(8 * |m|, 8)
  {
    hide BigEndian;
  }
}
