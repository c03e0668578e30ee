/** Messages in blocks of 64 bytes, as MD5 and SHA-256 cut them. */
module Blocks {
  import opened Bytes

  function Zeros(n: nat): (r: Bytes)
    ensures |r| == n
  {
    seq(n, _ => 0 as Byte)
  }

  /** The least number of zero bytes that lets marker, zeros and length end on a block boundary. */
  function ZeroCount(len: nat): (k: nat)
    ensures (len + 1 + k + 8) % 64 == 0 && k < 64
  {
    (119 - len % 64) % 64
  }

  /** The part of a message that fills whole blocks. */
  function Whole(m: Bytes): (r: Bytes)
    ensures |r| % 64 == 0
  {
    m[..|m| / 64 * 64]
  }

  function Rest(m: Bytes): (r: Bytes)
    ensures |r| == |m| % 64 && m == Whole(m) + r
  {
    m[|m| / 64 * 64..]
  }

  lemma WholeUnique(m: Bytes, a: Bytes, r: Bytes)
    requires m == a + r && |a| % 64 == 0 && |r| < 64
    ensures Whole(m) == a && Rest(m) == r
  {
    assert |m| / 64 * 64 == |a|;
  }

  lemma PieceTaken(m: Bytes, input: Bytes, i: nat)
    requires i % 64 == 0 && i <= |Rest(m) + input| < i + 64
    ensures var b := Rest(m) + input;
            Whole(m + input) == Whole(m) + b[..i] && Rest(m + input) == b[i..]
  {
    hide Whole, Rest;
    var b := Rest(m) + input;
    assert m + input == (Whole(m) + b[..i]) + b[i..] by {
      assert b == b[..i] + b[i..];
      assert m + input == Whole(m) + b;
    }
    WholeUnique(m + input, Whole(m) + b[..i], b[i..]);
  }
}
