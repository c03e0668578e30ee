/** MD5 (section 3 of RFC 1321) with its steps as one recurrence, and its messages and words byte by byte. */
module Md5Shape {
  import opened Bytes
  import opened Blocks
  import opened Md5Block
  import opened Md5

  /** The four words of the state are the last four values of one, which follows a recurrence. */
  lemma StepsAreOneRecurrence(s: State, x: seq<bv32>, n: nat)
    requires |x| == 16 && 3 <= n < 64
    ensures var p3, p2, p1 := Rounds(s, x, n - 3).b, Rounds(s, x, n - 2).b, Rounds(s, x, n - 1).b;
            var now, next := Rounds(s, x, n), Rounds(s, x, n + 1);
            var f := if n < 16 then F(now.b, p1, p2) else if n < 32 then G(now.b, p1, p2)
                     else if n < 48 then H(now.b, p1, p2) else I(now.b, p1, p2);
            && now == State(p3, now.b, p1, p2)
            && next.b == Plus(RotateLeft(Plus(Plus(Plus(p3, f), x[Index(n)]), Sine(n)), Rotation(n)), now.b)
  {
    hide F, G, H, I, Plus, RotateLeft, Index, Rotation, Sine, Rounds;
    RoundsMore(s, x, n - 3);
    RoundsMore(s, x, n - 2);
    RoundsMore(s, x, n - 1);
    RoundsMore(s, x, n);
  }

  lemma RoundsMore(s: State, x: seq<bv32>, n: nat)
    requires |x| == 16
    ensures Rounds(s, x, n + 1) == Step(Rounds(s, x, n), x, n)
  {
    hide Step;
  }

  /** The steps start from the state so far and are added to it word by word. */
  lemma CompressAdds(s: State, block: Bytes)
    requires |block| == 64
    ensures var r, c := Rounds(s, Words(block), 64), Compress(s, block);
            && Rounds(s, Words(block), 0) == s
            && c.a == Plus(s.a, r.a) && c.b == Plus(s.b, r.b) && c.c == Plus(s.c, r.c) && c.d == Plus(s.d, r.d)
  {
    hide Plus, Step, Words;
  }

  /** The words of a block hold its bytes, low byte first. */
  lemma WordsLayout(block: Bytes, i: nat)
    requires |block| == 64 && i < 16
    ensures var w := Words(block)[i];
            && w & 0xff == block[4 * i] as bv32 && (w >> 8) & 0xff == block[4 * i + 1] as bv32
            && (w >> 16) & 0xff == block[4 * i + 2] as bv32 && w >> 24 == block[4 * i + 3] as bv32
  {
    hide Word;
    LowFirst(block[4 * i], block[4 * i + 1], block[4 * i + 2], block[4 * i + 3]);
  }

  lemma LowFirst(b0: Byte, b1: Byte, b2: Byte, b3: Byte)
    ensures var w := Word(b0, b1, b2, b3);
            && w & 0xff == b0 as bv32 && (w >> 8) & 0xff == b1 as bv32
            && (w >> 16) & 0xff == b2 as bv32 && w >> 24 == b3 as bv32
  {
  }

  /** The digest is the four words one after the other, low byte first. */
  lemma DigestLayout(s: State)
    ensures DigestBytes(s) == WordBytes(s.a) + WordBytes(s.b) + WordBytes(s.c) + WordBytes(s.d)
    ensures WordBytes(s.a)[0] as bv32 == s.a & 0xff && WordBytes(s.a)[3] as bv32 == s.a >> 24
  {
    LowByteFirst(s.a);
    hide WordBytes;
    assert [s.a, s.b, s.c, s.d][..3] == [s.a, s.b, s.c] && [s.a, s.b, s.c][..2] == [s.a, s.b];
    assert [s.a, s.b][..1] == [s.a] && [s.a][..0] == [];
    assert EncodedWords([s.a]) == WordBytes(s.a);
    assert EncodedWords([s.a, s.b]) == WordBytes(s.a) + WordBytes(s.b);
    assert EncodedWords([s.a, s.b, s.c]) == WordBytes(s.a) + WordBytes(s.b) + WordBytes(s.c);
  }

  lemma LowByteFirst(x: bv32)
    ensures WordBytes(x)[0] as bv32 == x & 0xff && WordBytes(x)[3] as bv32 == x >> 24
  {
  }

  /** The i-th byte is the i-th digit to the base 256. */
  lemma {:induction false} LittleEndianAt(n: nat, k: nat, i: nat)
    requires i < k
    ensures LittleEndian(n, k)[i] == ByteOf(n / Pow256(i))
    decreases k
  {
    hide ByteOf;
    if i == 0 {
      assert n / Pow256(0) == n;
    } else {
      LittleEndianAt(n / 256, k - 1, i - 1);
      QuotientTwice(n, Pow256(i - 1));
    }
  }

  /** The message, a one bit, zeros, and the length in bits in eight bytes, in as few blocks as will do. */
  lemma PaddedLayout(m: Bytes)
    ensures var p := Padded(m);
            && |m| + 9 <= |p| < |m| + 73 && |p| % 64 == 0
            && p[..|m|] == m && p[|m|] == 0x80 && (forall k :: |m| < k < |p| - 8 ==> p[k] == 0)
            && p[|p| - 8..] == LittleEndian(8 * |m| % TWO64, 8)
  {
    hide LittleEndian;
  }
}
