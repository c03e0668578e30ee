/** The key schedule of section 5.2 of FIPS 197, word by word. */
module AesKey {
  import opened Bytes
  import opened Gf256
  import opened AesTables
  import opened AesCipher

  function SubWordOf(x: Word): Word {
    Word(Sbox(x.b0), Sbox(x.b1), Sbox(x.b2), Sbox(x.b3))
  }

  function RotWordOf(x: Word): Word {
    Word(x.b1, x.b2, x.b3, x.b0)
  }

  /** x^(n - 1) in the leading byte. */
  function RconOf(n: nat): Word
    requires n > 0
  {
    Word(XTimes(1, n - 1), 0, 0, 0)
  }

  /** Four bytes of a buffer as a word. */
  function WordAt(s: Bytes, off: nat): Word
    requires off + 4 <= |s|
  {
    Word(s[off], s[off + 1], s[off + 2], s[off + 3])
  }

  /** What is xored into word i besides word i - nk. */
  function Twisted(x: Word, nk: nat, i: nat): Word
    requires 0 < nk <= i
  {
    if i % nk == 0 then Sum(SubWordOf(RotWordOf(x)), RconOf(i / nk))
    else if nk > 6 && i % nk == 4 then SubWordOf(x)
    else x
  }

  /** Word i of the expanded key. */
  function KeyWord(key: Bytes, nk: nat, i: nat): Word
    requires nk > 0 && |key| == 4 * nk
    decreases i
  {
    if i < nk then WordAt(key, 4 * i)
    else Sum(KeyWord(key, nk, i - nk), Twisted(KeyWord(key, nk, i - 1), nk, i))
  }

  /** The first n words, byte after byte. */
  function ExpandedKey(key: Bytes, nk: nat, n: nat): (w: Bytes)
    requires nk > 0 && |key| == 4 * nk
    ensures |w| == 4 * n
    decreases n
  {
    if n == 0 then []
    else
      var x := KeyWord(key, nk, n - 1);
      ExpandedKey(key, nk, n - 1) + WordBytes(x)
  }

  lemma ExpandedKeyNext(key: Bytes, nk: nat, n: nat)
    requires nk > 0 && |key| == 4 * nk
    ensures ExpandedKey(key, nk, n + 1) == ExpandedKey(key, nk, n) + WordBytes(KeyWord(key, nk, n))
  {
  }

  /** The byte layout of the expanded key: word i occupies bytes 4i to 4i + 3. */
  lemma {:induction false} ExpandedKeyAt(key: Bytes, nk: nat, n: nat, i: nat)
    requires nk > 0 && |key| == 4 * nk && i < n
    ensures WordAt(ExpandedKey(key, nk, n), 4 * i) == KeyWord(key, nk, i)
    decreases n
  {
    hide KeyWord;
    var before := ExpandedKey(key, nk, n - 1);
    if i < n - 1 {
      ExpandedKeyAt(key, nk, n - 1, i);
      assert WordAt(before + WordBytes(KeyWord(key, nk, n - 1)), 4 * i) == WordAt(before, 4 * i);
    }
  }

  /** The key itself comes first. */
  lemma {:induction false} ExpandedKeyStart(key: Bytes, nk: nat, n: nat)
    requires nk > 0 && |key| == 4 * nk && n <= nk
    ensures ExpandedKey(key, nk, n) == key[..4 * n]
    decreases n
  {
    if n > 0 {
      ExpandedKeyStart(key, nk, n - 1);
    }
  }

  /** The leading bytes of the round constants are successive powers of x in GF(2^8). */
  lemma {:induction false} RconIsPower(n: nat)
    requires n > 0
    ensures RconOf(1).b0 == 1
    ensures RconOf(n + 1).b0 == Mul(2, RconOf(n).b0)
  {
    hide Mul, XTime;
    XTimeIsTimesTwo(XTimes(1, n - 1));
  }

  lemma XTimeIsTimesTwo(a: Byte)
    ensures XTime(a) == Mul(2, a)
  {
    hide Mul;
    TimesTwoThree(a);
    MulCommutes(a, 2);
  }

  // ---------------------------------------------------------------------------------------------
  // The source's in-place word operations

  method RotWord(a: array<Byte>)
    requires a.Length == 4
    modifies a
    ensures WordAt(a[..], 0) == RotWordOf(old(WordAt(a[..], 0)))
  {
    var c := a[0];
    a[0] := a[1];
    a[1] := a[2];
    a[2] := a[3];
    a[3] := c;
  }

  method SubWord(a: array<Byte>)
    requires a.Length == 4
    modifies a
    ensures WordAt(a[..], 0) == SubWordOf(old(WordAt(a[..], 0)))
  {
    hide Sbox;
    var i := 0;
    while i < 4
      invariant 0 <= i <= 4
      invariant forall k :: 0 <= k < 4 ==> a[k] == if k < i then Sbox(old(a[k])) else old(a[k])
    {
      a[i] := Sbox(a[i]);
      i := i + 1;
    }
  }

  method XorWords(a: array<Byte>, b: array<Byte>, c: array<Byte>)
    requires a.Length == 4 && b.Length == 4 && c.Length == 4
    modifies c
    ensures WordAt(c[..], 0) == Sum(old(WordAt(a[..], 0)), old(WordAt(b[..], 0)))
  {
    hide Xor;
    var i := 0;
    while i < 4
      invariant 0 <= i <= 4
      invariant forall k :: i <= k < 4 ==> a[k] == old(a[k]) && b[k] == old(b[k])
      invariant forall k :: 0 <= k < i ==> c[k] == Xor(old(a[k]), old(b[k]))
    {
      c[i] := Xor(a[i], b[i]);
      i := i + 1;
    }
  }

  method Rcon(a: array<Byte>, n: nat)
    requires a.Length == 4 && n > 0
    modifies a
    ensures WordAt(a[..], 0) == RconOf(n)
  {
    hide XTime;
    var c: Byte := 1;
    var i := 0;
    while i < n - 1
      invariant 0 <= i <= n - 1
      invariant c == XTimes(1, i)
    {
      c := XTime(c);
      i := i + 1;
    }
    a[0] := c;
    a[1], a[2], a[3] := 0, 0, 0;
  }

  lemma ByteToWordIndex(n: nat, nk: nat)
    requires nk > 0
    ensures 4 * n / 4 == n && 4 * n / (nk * 4) == n / nk
  {
    var q, r := n / nk, n % nk;
    assert 4 * n == (nk * 4) * q + 4 * r;
    QuotientUnique(4 * n, nk * 4, q, 4 * r);
  }

  lemma MulGrows(d: int, e: int)
    requires d > 0
    ensures e >= 1 ==> d * e >= d
    ensures e <= -1 ==> d * e <= -d
  {
  }

  lemma DivPositive(n: nat, d: nat)
    requires 0 < d <= n
    ensures n / d > 0
  {
    assert n == d * (n / d) + n % d;
    MulGrows(d, n / d);
  }

  function WordBytes(x: Word): Bytes {
    [x.b0, x.b1, x.b2, x.b3]
  }

  /** Puts into temp what word n takes in besides word n - nk. */
  method NextTemp(w: array<Byte>, temp: array<Byte>, rcon: array<Byte>, nk: nat, i: nat, ghost n: nat)
    requires temp.Length == 4 && rcon.Length == 4 && temp != rcon && w != temp && w != rcon
    requires 0 < nk <= n && i == 4 * n <= w.Length
    modifies temp, rcon
    ensures WordAt(temp[..], 0) == Twisted(WordAt(w[..i], i - 4), nk, n)
  {
    hide Xor, Sbox, XTimes;
    temp[0] := w[i - 4 + 0];
    temp[1] := w[i - 4 + 1];
    temp[2] := w[i - 4 + 2];
    temp[3] := w[i - 4 + 3];
    ByteToWordIndex(n, nk);
    if i / 4 % nk == 0 {
      DivPositive(n, nk);
      RotWord(temp);
      SubWord(temp);
      Rcon(rcon, i / (nk * 4));
      XorWords(temp, rcon, temp);
    } else if nk > 6 && i / 4 % nk == 4 {
      SubWord(temp);
    }
  }

  /** The new word: the one nk words back xored with temp. */
  method StoreWord(w: array<Byte>, temp: array<Byte>, nk: nat, i: nat)
    requires temp.Length == 4 && 0 < 4 * nk <= i && i + 4 <= w.Length && w != temp
    modifies w
    ensures w[..i + 4] == old(w[..i]) + WordBytes(Sum(WordAt(old(w[..i]), i - 4 * nk), WordAt(temp[..], 0)))
  {
    hide Xor;
    w[i + 0] := Xor(w[i - 4 * nk], temp[0]);
    w[i + 1] := Xor(w[i + 1 - 4 * nk], temp[1]);
    w[i + 2] := Xor(w[i + 2 - 4 * nk], temp[2]);
    w[i + 3] := Xor(w[i + 3 - 4 * nk], temp[3]);
  }

  /** The in-place byte loop computes the word schedule. */
  method KeyExpansion(key: array<Byte>, w: array<Byte>, nk: nat, nr: nat)
    requires nk in {4, 6, 8} && nr == nk + 6
    requires key.Length >= 4 * nk && w.Length == 16 * (nr + 1) && key != w
    modifies w
    ensures w[..] == ExpandedKey(key[..4 * nk], nk, 4 * (nr + 1))
  {
    hide Xor, Twisted, WordBytes, Sum, ExpandedKey, WordAt;
    var temp := new Byte[4];
    var rcon := new Byte[4];
    ghost var k0 := key[..4 * nk];

    var i := 0;
    while i < 4 * nk
      invariant 0 <= i <= 4 * nk
      invariant w[..i] == k0[..i]
    {
      w[i] := key[i];
      i := i + 1;
    }
    ExpandedKeyStart(k0, nk, nk);

    i := 4 * nk;
    ghost var n := nk;
    while i < 16 * (nr + 1)
      invariant nk <= n <= 4 * (nr + 1) && i == 4 * n
      invariant fresh(temp) && fresh(rcon) && temp != rcon
      invariant w[..i] == ExpandedKey(k0, nk, n)
    {
      ExpandedKeyAt(k0, nk, n, n - 1);
      ExpandedKeyAt(k0, nk, n, n - nk);
      assert i - 4 == 4 * (n - 1) && i - 4 * nk == 4 * (n - nk);
      NextTemp(w, temp, rcon, nk, i, n);
      assert KeyWord(k0, nk, n) == Sum(WordAt(w[..i], i - 4 * nk), WordAt(temp[..], 0));
      StoreWord(w, temp, nk, i);
      assert w[..i + 4] == ExpandedKey(k0, nk, n) + WordBytes(KeyWord(k0, nk, n));
      ExpandedKeyNext(k0, nk, n);
      i := i + 4;
      n := n + 1;
    }
    assert w[..] == w[..i];
  }
}
