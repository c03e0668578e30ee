/** Base64 (section 4 of RFC 4648) as algo/base64.cxx computes it. */
module Base64 {
  import opened Bytes

  const EQUALS: Byte := 61

  /** base64_chars[i]: the letters, the digits, + and /. */
  function Char(i: Byte): Byte {
    if i < 26 then 65 + i
    else if i < 52 then 71 + i
    else if i < 62 then i - 4
    else if i == 62 then 43
    else 47
  }

  /** base64_chars.find(c) as an unsigned char: 255 if c is not there. */
  function Find(c: Byte): Byte {
    if 65 <= c <= 90 then c - 65
    else if 97 <= c <= 122 then c - 71
    else if 48 <= c <= 57 then c + 4
    else if c == 43 then 62
    else if c == 47 then 63
    else 255
  }

  /** isalnum, + or / */
  predicate IsBase64(c: Byte) {
    65 <= c <= 90 || 97 <= c <= 122 || 48 <= c <= 57 || c == 43 || c == 47
  }

  lemma FindsChar(i: Byte)
    ensures i < 64 ==> Find(Char(i)) == i
    ensures IsBase64(Char(i)) && Char(i) != EQUALS
  {
  }

  /** base64_chars is "ABCDEFGHIJKLMNOPQRSTUVWXYZabcdefghijklmnopqrstuvwxyz0123456789+/" */
  lemma Alphabet()
    ensures Char(0) == 65 && Char(1) == 66 && Char(2) == 67 && Char(3) == 68 && Char(4) == 69 && Char(5) == 70
    ensures Char(6) == 71 && Char(7) == 72 && Char(8) == 73 && Char(9) == 74 && Char(10) == 75 && Char(11) == 76
    ensures Char(12) == 77 && Char(13) == 78 && Char(14) == 79 && Char(15) == 80 && Char(16) == 81 && Char(17) == 82
    ensures Char(18) == 83 && Char(19) == 84 && Char(20) == 85 && Char(21) == 86 && Char(22) == 87 && Char(23) == 88
    ensures Char(24) == 89 && Char(25) == 90 && Char(26) == 97 && Char(27) == 98 && Char(28) == 99 && Char(29) == 100
    ensures Char(30) == 101 && Char(31) == 102 && Char(32) == 103 && Char(33) == 104 && Char(34) == 105 && Char(35) == 106
    ensures Char(36) == 107 && Char(37) == 108 && Char(38) == 109 && Char(39) == 110 && Char(40) == 111 && Char(41) == 112
    ensures Char(42) == 113 && Char(43) == 114 && Char(44) == 115 && Char(45) == 116 && Char(46) == 117 && Char(47) == 118
    ensures Char(48) == 119 && Char(49) == 120 && Char(50) == 121 && Char(51) == 122 && Char(52) == 48 && Char(53) == 49
    ensures Char(54) == 50 && Char(55) == 51 && Char(56) == 52 && Char(57) == 53 && Char(58) == 54 && Char(59) == 55
    ensures Char(60) == 56 && Char(61) == 57 && Char(62) == 43 && Char(63) == 47
  {
  }

  // ---------------------------------------------------------------------------------------------
  // Groups of three bytes and of four characters

  function Sextet0(a: Byte, b: Byte, c: Byte): Byte {
    (a & 0xfc) >> 2
  }

  function Sextet1(a: Byte, b: Byte, c: Byte): Byte {
    ((a & 0x03) << 4) + ((b & 0xf0) >> 4)
  }

  function Sextet2(a: Byte, b: Byte, c: Byte): Byte {
    ((b & 0x0f) << 2) + ((c & 0xc0) >> 6)
  }

  function Sextet3(a: Byte, b: Byte, c: Byte): Byte {
    c & 0x3f
  }

  function Octet0(p: Byte, q: Byte, r: Byte, s: Byte): Byte {
    (p << 2) + ((q & 0x30) >> 4)
  }

  function Octet1(p: Byte, q: Byte, r: Byte, s: Byte): Byte {
    ((q & 0xf) << 4) + ((r & 0x3c) >> 2)
  }

  function Octet2(p: Byte, q: Byte, r: Byte, s: Byte): Byte {
    ((r & 0x3) << 6) + s
  }

  /** The 24 bits of a group, cut into four. */
  lemma SextetsAreTheGroup(a: Byte, b: Byte, c: Byte)
    ensures var n := (a as bv24 << 16) | (b as bv24 << 8) | c as bv24;
            && Sextet0(a, b, c) as bv24 == n >> 18 && Sextet1(a, b, c) as bv24 == (n >> 12) & 63
            && Sextet2(a, b, c) as bv24 == (n >> 6) & 63 && Sextet3(a, b, c) as bv24 == n & 63
  {
  }

  lemma SextetsAreSmall(a: Byte, b: Byte, c: Byte)
    ensures Sextet0(a, b, c) < 64 && Sextet1(a, b, c) < 64 && Sextet2(a, b, c) < 64 && Sextet3(a, b, c) < 64
  {
  }

  /** Each byte of a group comes back from the sextets it is spread over, whatever the others are. */
  lemma OctetsUndo(a: Byte, b: Byte, c: Byte, x: Byte, y: Byte)
    ensures Octet0(Sextet0(a, b, c), Sextet1(a, b, c), x, y) == a
    ensures Octet1(x, Sextet1(a, b, c), Sextet2(a, b, c), y) == b
    ensures Octet2(x, y, Sextet2(a, b, c), Sextet3(a, b, c)) == c
  {
  }

  function Quad(a: Byte, b: Byte, c: Byte): (r: Bytes)
    ensures |r| == 4
  {
    [Char(Sextet0(a, b, c)), Char(Sextet1(a, b, c)), Char(Sextet2(a, b, c)), Char(Sextet3(a, b, c))]
  }

  function Triple(p: Byte, q: Byte, r: Byte, s: Byte): (t: Bytes)
    ensures |t| == 3
  {
    [Octet0(Find(p), Find(q), Find(r), Find(s)), Octet1(Find(p), Find(q), Find(r), Find(s)),
     Octet2(Find(p), Find(q), Find(r), Find(s))]
  }

  lemma TripleOfQuad(a: Byte, b: Byte, c: Byte)
    ensures var t := Quad(a, b, c);
            Triple(t[0], t[1], t[2], t[3]) == [a, b, c]
  {
    hide Char, Find, Sextet0, Sextet1, Sextet2, Sextet3, Octet0, Octet1, Octet2;
    SextetsFound(a, b, c);
    OctetsUndo(a, b, c, Sextet2(a, b, c), Sextet3(a, b, c));
    OctetsUndo(a, b, c, Sextet0(a, b, c), Sextet3(a, b, c));
    OctetsUndo(a, b, c, Sextet0(a, b, c), Sextet1(a, b, c));
  }

  lemma SextetsFound(a: Byte, b: Byte, c: Byte)
    ensures Find(Char(Sextet0(a, b, c))) == Sextet0(a, b, c) && Find(Char(Sextet1(a, b, c))) == Sextet1(a, b, c)
    ensures Find(Char(Sextet2(a, b, c))) == Sextet2(a, b, c) && Find(Char(Sextet3(a, b, c))) == Sextet3(a, b, c)
  {
    hide Char, Find, Sextet0, Sextet1, Sextet2, Sextet3;
    SextetsAreSmall(a, b, c);
    FindsChar(Sextet0(a, b, c));
    FindsChar(Sextet1(a, b, c));
    FindsChar(Sextet2(a, b, c));
    FindsChar(Sextet3(a, b, c));
  }

  // ---------------------------------------------------------------------------------------------
  // Whole strings

  function EncodedWhole(x: Bytes): (r: Bytes)
    requires |x| % 3 == 0
    ensures |r| == |x| / 3 * 4
    decreases |x|
  {
    if x == [] then []
    else
      var n := |x| - 3;
      EncodedWhole(x[..n]) + Quad(x[n], x[n + 1], x[n + 2])
  }

  /** One or two last bytes are padded with zero bits to whole characters, and with = to four. */
  function EncodedTail(x: Bytes): (r: Bytes)
    requires |x| < 3
    ensures |r| == if x == [] then 0 else 4
  {
    if |x| == 0 then []
    else if |x| == 1 then [Quad(x[0], 0, 0)[0], Quad(x[0], 0, 0)[1], EQUALS, EQUALS]
    else [Quad(x[0], x[1], 0)[0], Quad(x[0], x[1], 0)[1], Quad(x[0], x[1], 0)[2], EQUALS]
  }

  /** The length of the whole groups of three. */
  function Threes(n: nat): (m: nat)
    ensures m <= n < m + 3 && m % 3 == 0
  {
    n / 3 * 3
  }

  lemma ThreesUnique(n: nat, m: nat)
    requires m % 3 == 0 && m <= n < m + 3
    ensures Threes(n) == m
  {
  }

  function Encoded(x: Bytes): (r: Bytes)
    ensures |r| == (|x| + 2) / 3 * 4
  {
    EncodedWhole(x[..Threes(|x|)]) + EncodedTail(x[Threes(|x|)..])
  }

  function DecodedWhole(t: Bytes): (r: Bytes)
    requires |t| % 4 == 0
    ensures |r| == |t| / 4 * 3
    decreases |t|
  {
    if t == [] then []
    else
      var n := |t| - 4;
      DecodedWhole(t[..n]) + Triple(t[n], t[n + 1], t[n + 2], t[n + 3])
  }

  /** Two or three last characters give one or two bytes; the missing ones are looked up as zero bytes. */
  function DecodedTail(t: Bytes): (r: Bytes)
    requires |t| < 4
  {
    if |t| < 2 then []
    else if |t| == 2 then Triple(t[0], t[1], 0, 0)[..1]
    else Triple(t[0], t[1], t[2], 0)[..2]
  }

  /** The length of the part before the first character that is not in the alphabet. */
  function Readable(t: Bytes): (n: nat)
    ensures n <= |t| && (forall i :: 0 <= i < n ==> IsBase64(t[i])) && (n < |t| ==> !IsBase64(t[n]))
  {
    if t == [] || !IsBase64(t[0]) then 0 else 1 + Readable(t[1..])
  }

  lemma {:induction false} ReadableUnique(t: Bytes, n: nat)
    requires n <= |t| && (forall i :: 0 <= i < n ==> IsBase64(t[i])) && (n < |t| ==> !IsBase64(t[n]))
    ensures Readable(t) == n
  {
    hide IsBase64;
    if t != [] && IsBase64(t[0]) {
      ReadableUnique(t[1..], if n > 0 then n - 1 else 0);
    }
  }

  /** The length of the whole groups of four. */
  function Fours(n: nat): (m: nat)
    ensures m <= n < m + 4 && m % 4 == 0
  {
    n / 4 * 4
  }

  function DecodedAll(t: Bytes): Bytes {
    DecodedWhole(t[..Fours(|t|)]) + DecodedTail(t[Fours(|t|)..])
  }

  function Decoded(t: Bytes): Bytes {
    DecodedAll(t[..Readable(t)])
  }

  lemma {:induction false} WholeRoundTrip(x: Bytes)
    requires |x| % 3 == 0
    ensures DecodedWhole(EncodedWhole(x)) == x
    decreases |x|
  {
    hide Quad, Triple, EncodedWhole, DecodedWhole;
    if x == [] {
      NothingCoded();
    } else {
      var n := |x| - 3;
      var y, a, b, c := x[..n], x[n], x[n + 1], x[n + 2];
      WholeRoundTrip(y);
      TripleOfQuad(a, b, c);
      assert x == y + [a, b, c];
      TripleEncoded(y, a, b, c);
      QuadDecoded(EncodedWhole(y), Quad(a, b, c));
    }
  }

  lemma TripleEncoded(x: Bytes, a: Byte, b: Byte, c: Byte)
    requires |x| % 3 == 0
    ensures |x + [a, b, c]| % 3 == 0 && EncodedWhole(x + [a, b, c]) == EncodedWhole(x) + Quad(a, b, c)
  {
    hide Quad, EncodedWhole;
    assert (x + [a, b, c])[..|x|] == x && (x + [a, b, c])[..|x| + 3] == x + [a, b, c];
    GroupEncoded(x + [a, b, c], |x|);
  }

  lemma QuadDecoded(t: Bytes, q: Bytes)
    requires |t| % 4 == 0 && |q| == 4
    ensures |t + q| % 4 == 0 && DecodedWhole(t + q) == DecodedWhole(t) + Triple(q[0], q[1], q[2], q[3])
  {
    hide Triple, DecodedWhole;
    assert (t + q)[..|t|] == t && (t + q)[..|t| + 4] == t + q;
    GroupDecoded(t + q, |t|);
  }

  lemma {:induction false} WholeReadable(x: Bytes)
    requires |x| % 3 == 0
    ensures forall i :: 0 <= i < |EncodedWhole(x)| ==> IsBase64(EncodedWhole(x)[i])
    decreases |x|
  {
    hide Quad, IsBase64;
    if x != [] {
      var n := |x| - 3;
      WholeReadable(x[..n]);
      QuadReadable(x[n], x[n + 1], x[n + 2]);
    }
  }

  lemma NothingCoded()
    ensures EncodedWhole([]) == [] && DecodedWhole([]) == [] && DecodedTail([]) == []
  {
  }

  lemma QuadReadable(a: Byte, b: Byte, c: Byte)
    ensures forall i :: 0 <= i < 4 ==> IsBase64(Quad(a, b, c)[i])
  {
    hide Char, Sextet0, Sextet1, Sextet2, Sextet3, IsBase64;
    FindsChar(Sextet0(a, b, c));
    FindsChar(Sextet1(a, b, c));
    FindsChar(Sextet2(a, b, c));
    FindsChar(Sextet3(a, b, c));
  }

  /** The characters of a tail before the padding, and what they decode to. */
  lemma TailRoundTrip(x: Bytes)
    requires |x| < 3
    ensures var n, t := if x == [] then 0 else |x| + 1, EncodedTail(x);
            && n <= |t| && (forall i :: 0 <= i < n ==> IsBase64(t[i])) && (n < |t| ==> !IsBase64(t[n]))
            && DecodedTail(t[..n]) == x
  {
    hide Char, Find, Sextet0, Sextet1, Sextet2, Sextet3, Octet0, Octet1, Octet2, IsBase64;
    NotPadding();
    if |x| == 1 {
      QuadReadable(x[0], 0, 0);
      SextetsFound(x[0], 0, 0);
      OctetsUndo(x[0], 0, 0, Find(0), Find(0));
    } else if |x| == 2 {
      QuadReadable(x[0], x[1], 0);
      SextetsFound(x[0], x[1], 0);
      OctetsUndo(x[0], x[1], 0, Sextet2(x[0], x[1], 0), Find(0));
      OctetsUndo(x[0], x[1], 0, Sextet0(x[0], x[1], 0), Find(0));
    }
  }

  lemma NotPadding()
    ensures !IsBase64(EQUALS)
  {
  }

  /** Decoding gives back every byte string from its encoding. */
  lemma RoundTrip(x: Bytes)
    ensures Decoded(Encoded(x)) == x
  {
    hide EncodedWhole, EncodedTail, DecodedWhole, DecodedTail, IsBase64, Readable, DecodedAll;
    var k := Threes(|x|);
    var head, tail := EncodedWhole(x[..k]), EncodedTail(x[k..]);
    WholeRoundTrip(x[..k]);
    WholeReadable(x[..k]);
    TailRoundTrip(x[k..]);
    var n := if x[k..] == [] then 0 else |x[k..]| + 1;
    ReadableConcat(head, tail, n);
    DecodedSplit(head, tail[..n]);
    assert (head + tail)[..|head| + n] == head + tail[..n];
    assert x == x[..k] + x[k..];
  }

  lemma ReadableConcat(s: Bytes, t: Bytes, n: nat)
    requires forall i :: 0 <= i < |s| ==> IsBase64(s[i])
    requires n <= |t| && (forall i :: 0 <= i < n ==> IsBase64(t[i])) && (n < |t| ==> !IsBase64(t[n]))
    ensures Readable(s + t) == |s| + n
  {
    hide IsBase64, Readable;
    ReadableUnique(s + t, |s| + n);
  }

  lemma DecodedSplit(s: Bytes, t: Bytes)
    requires |s| % 4 == 0 && |t| < 4
    ensures DecodedAll(s + t) == DecodedWhole(s) + DecodedTail(t)
  {
    hide DecodedWhole, DecodedTail, Fours;
    FoursUnique(|s + t|, |s|);
    assert (s + t)[..|s|] == s && (s + t)[|s|..] == t;
  }

  lemma FoursUnique(n: nat, m: nat)
    requires m % 4 == 0 && m <= n < m + 4
    ensures Fours(n) == m
  {
  }

  // ---------------------------------------------------------------------------------------------
  // The source

  method Encode(bytes: Bytes) returns (ret: Bytes)
    ensures ret == Encoded(bytes)
  {
    hide Quad, EncodedWhole, EncodedTail, Threes;
    NothingCoded();
    ret := [];
    var i, n := 0, 0;
    var group := new Byte[3];
    while n < |bytes|
      invariant i <= n <= |bytes| && i < 3 && (n - i) % 3 == 0
      invariant forall k :: 0 <= k < i ==> group[k] == bytes[n - i + k]
      invariant ret == EncodedWhole(bytes[..n - i])
    {
      group[i] := bytes[n];
      i, n := i + 1, n + 1;
      if i == 3 {
        GroupEncoded(bytes, n - 3);
        ret := ret + Quad(group[0], group[1], group[2]);
        i := 0;
      }
    }
    ThreesUnique(n, n - i);
    Slices(bytes, n, n - i);
    assert bytes[..n] == bytes && group[..i] == bytes[n - i..n];
    if i != 0 {
      var tail := EncodeTail(group, i);
      ret := ret + tail;
    }
  }

  /** The last one or two bytes. */
  method EncodeTail(group: array<Byte>, count: nat) returns (ret: Bytes)
    requires group.Length == 3 && 0 < count < 3
    modifies group
    ensures ret == EncodedTail(old(group[..count]))
  {
    hide Quad;
    ghost var x := group[..count];
    var j := count;
    while j < 3
      invariant count <= j <= 3
      invariant group[..count] == x && forall k :: count <= k < j ==> group[k] == 0
    {
      group[j] := 0;
      j := j + 1;
    }
    var quad := Quad(group[0], group[1], group[2]);
    ret := [];
    j := 0;
    while j < count + 1
      invariant 0 <= j <= count + 1 && ret == quad[..j]
    {
      ret := ret + [quad[j]];
      j := j + 1;
    }
    var i := count;
    while i < 3
      invariant count <= i <= 3 && ret == quad[..count + 1] + Padding(i - count)
    {
      ret := ret + [EQUALS];
      i := i + 1;
    }
  }

  lemma Slices(s: Bytes, n: nat, m: nat)
    requires m <= n <= |s|
    ensures s[..n][..m] == s[..m] && s[..n][m..] == s[m..n]
    ensures m == n ==> s[m..n] == []
  {
  }

  function Padding(n: nat): Bytes {
    seq(n, _ => EQUALS)
  }

  lemma GroupEncoded(x: Bytes, n: nat)
    requires n % 3 == 0 && n + 3 <= |x|
    ensures EncodedWhole(x[..n + 3]) == EncodedWhole(x[..n]) + Quad(x[n], x[n + 1], x[n + 2])
  {
    hide Quad;
    assert x[..n + 3][..n] == x[..n];
  }

  lemma GroupDecoded(t: Bytes, n: nat)
    requires n % 4 == 0 && n + 4 <= |t|
    ensures DecodedWhole(t[..n + 4]) == DecodedWhole(t[..n]) + Triple(t[n], t[n + 1], t[n + 2], t[n + 3])
  {
    hide Triple;
    assert t[..n + 4][..n] == t[..n];
  }

  method Decode(encoded: Bytes) returns (ret: Bytes)
    requires |encoded| < 0x8000_0000
    ensures ret == Decoded(encoded)
  {
    hide IsBase64, Triple, Readable, DecodedWhole, DecodedTail, Fours;
    NothingCoded();
    ret := [];
    var i, n := 0, 0;
    var group := new Byte[4];
    while n < |encoded| && encoded[n] != EQUALS && IsBase64(encoded[n])
      invariant i <= n <= |encoded| && i < 4 && (n - i) % 4 == 0
      invariant forall k :: 0 <= k < n ==> IsBase64(encoded[k])
      invariant forall k :: 0 <= k < i ==> group[k] == encoded[n - i + k]
      invariant ret == DecodedWhole(encoded[..n - i])
    {
      group[i] := encoded[n];
      i, n := i + 1, n + 1;
      if i == 4 {
        GroupDecoded(encoded, n - 4);
        ret := ret + Triple(group[0], group[1], group[2], group[3]);
        i := 0;
      }
    }
    NotPadding();
    ReadableUnique(encoded, n);
    ghost var t := encoded[..n];
    FoursUnique(n, n - i);
    Slices(encoded, n, n - i);
    assert group[..i] == encoded[n - i..n];
    if i != 0 {
      var tail := DecodeTail(group, i);
      ret := ret + tail;
    }
  }

  /** The last one to three characters. */
  method DecodeTail(group: array<Byte>, count: nat) returns (ret: Bytes)
    requires group.Length == 4 && 0 < count < 4
    modifies group
    ensures ret == DecodedTail(old(group[..count]))
  {
    hide Triple;
    ghost var t := group[..count];
    var j := count;
    while j < 4
      invariant count <= j <= 4
      invariant group[..count] == t && forall k :: count <= k < j ==> group[k] == 0
    {
      group[j] := 0;
      j := j + 1;
    }
    var triple := Triple(group[0], group[1], group[2], group[3]);
    ret := [];
    j := 0;
    while j < count - 1
      invariant 0 <= j <= count - 1 && ret == triple[..j]
    {
      ret := ret + [triple[j]];
      j := j + 1;
    }
  }
}
