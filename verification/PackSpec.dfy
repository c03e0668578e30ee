/** What the packets of periphery/abstraction_mc.cxx hold: the bit fields "u" (unsigned numbers) and "a1" (bit arrays). */
module PackSpec {
  import opened Bytes
  import opened BitStrings

  // ---------------------------------------------------------------------------------------------
  // Numbers and bits

  function ToBits(v: nat, n: nat): (r: Bits)
    ensures |r| == n
    decreases n
  {
    if n == 0 then [] else [v % 2 == 1] + ToBits(v / 2, n - 1)
  }

  function FromBits(b: Bits): nat {
    if b == [] then 0 else (if b[0] then 1 else 0) + 2 * FromBits(b[1..])
  }

  function Pow2(n: nat): (r: nat)
    ensures r > 0
  {
    if n == 0 then 1 else 2 * Pow2(n - 1)
  }

  /** n bits keep a number modulo 2^n. */
  lemma {:induction false} FromTo(v: nat, n: nat)
    ensures FromBits(ToBits(v, n)) == v % Pow2(n)
    decreases n
  {
    if n > 0 {
      FromTo(v / 2, n - 1);
      assert ToBits(v, n)[1..] == ToBits(v / 2, n - 1);
      Halves(v, Pow2(n - 1));
    }
  }

  lemma Halves(v: nat, p: nat)
    requires p > 0
    ensures v % (2 * p) == v % 2 + 2 * (v / 2 % p)
  {
    var q, r := v / 2 / p, v / 2 % p;
    assert v / 2 == p * q + r;
    Doubled(p, q);
    assert v == 2 * p * q + (v % 2 + 2 * r);
    RemainderUnique(v, 2 * p, q, v % 2 + 2 * r);
  }

  lemma Doubled(p: nat, q: nat)
    ensures 2 * (p * q) == 2 * p * q
  {
  }

  lemma RemainderUnique(v: nat, p: nat, q: nat, r: nat)
    requires p > 0 && v == p * q + r && r < p
    ensures v % p == r
  {
    var d := v / p - q;
    assert v == p * (v / p) + v % p;
    assert p * (v / p) - p * q == p * d;
    assert p * d == r - v % p;
    MultipleBelow(p, d);
  }

  function Falses(k: nat): (r: Bits)
    ensures |r| == k
  {
    seq(k, _ => false)
  }

  lemma {:induction false} FromPadded(b: Bits, k: nat)
    ensures FromBits(b + Falses(k)) == FromBits(b)
    decreases |b| + k
  {
    if b == [] {
      assert b + Falses(k) == Falses(k);
      if k > 0 {
        assert Falses(k)[1..] == [] + Falses(k - 1);
        FromPadded([], k - 1);
      }
    } else {
      assert (b + Falses(k))[1..] == b[1..] + Falses(k);
      FromPadded(b[1..], k);
    }
  }

  /** The number that bytes hold, least significant first. */
  function ValueOf(s: Bytes): nat {
    if s == [] then 0 else s[0] as nat + 256 * ValueOf(s[1..])
  }

  lemma FirstBit(b: Byte, n: nat)
    requires n > 0
    ensures ToBits(b as nat, n) == [Odd(b)] + ToBits(Half(b) as nat, n - 1)
  {
  }

  lemma BitIsOdd(b: Byte)
    ensures var h := Half(Half(Half(Half(b))));
            && Bit(b, 0) == Odd(b) && Bit(b, 1) == Odd(Half(b))
            && Bit(b, 2) == Odd(Half(Half(b))) && Bit(b, 3) == Odd(Half(Half(Half(b))))
            && Bit(b, 4) == Odd(h) && Bit(b, 5) == Odd(Half(h))
            && Bit(b, 6) == Odd(Half(Half(h))) && Bit(b, 7) == Odd(Half(Half(Half(h))))
  {
  }

  function ByteBits(b: Byte, n: nat): Bits
    decreases n
  {
    if n == 0 then [] else [Odd(b)] + ByteBits(Half(b), n - 1)
  }

  lemma {:induction false} ByteBitsAreItsNumber(b: Byte, n: nat)
    ensures ToBits(b as nat, n) == ByteBits(b, n)
    decreases n
  {
    hide Half, Odd, ToBits;
    if n == 0 {
      NoBits(b as nat);
    } else {
      FirstBit(b, n);
      ByteBitsAreItsNumber(Half(b), n - 1);
    }
  }

  lemma NoBits(v: nat)
    ensures ToBits(v, 0) == []
  {
  }

  lemma TwoBits(b: Byte, n: nat)
    requires n >= 2
    ensures ByteBits(b, n) == [Odd(b), Odd(Half(b))] + ByteBits(Half(Half(b)), n - 2)
  {
    hide Half, Odd;
    assert ByteBits(Half(b), n - 1) == [Odd(Half(b))] + ByteBits(Half(Half(b)), n - 2);
  }

  lemma FourBits(b: Byte, n: nat)
    requires n >= 4
    ensures ByteBits(b, n) == [Odd(b), Odd(Half(b)), Odd(Half(Half(b))), Odd(Half(Half(Half(b))))]
                              + ByteBits(Half(Half(Half(Half(b)))), n - 4)
  {
    hide Half, Odd, ByteBits;
    TwoBits(b, n);
    TwoBits(Half(Half(b)), n - 2);
  }

  lemma EightBits(b: Byte)
    ensures ByteBits(b, 8) == [Bit(b, 0), Bit(b, 1), Bit(b, 2), Bit(b, 3)] + [Bit(b, 4), Bit(b, 5), Bit(b, 6), Bit(b, 7)]
  {
    hide Bit, Half, Odd, ByteBits;
    BitIsOdd(b);
    var h := Half(Half(Half(Half(b))));
    FourBits(b, 8);
    FourBits(h, 4);
    NoByteBits(Half(Half(Half(Half(h)))));
  }

  lemma NoByteBits(b: Byte)
    ensures ByteBits(b, 0) == []
  {
  }

  /** The bits of a byte string are those of its first byte and those of the rest. */
  lemma BitsOfFirst(s: Bytes)
    requires s != []
    ensures BitsOf(s) == ByteBits(s[0], 8) + BitsOf(s[1..])
  {
    hide Bit, ByteBits;
    EightBits(s[0]);
    var r := ByteBits(s[0], 8) + BitsOf(s[1..]);
    assert |r| == 8 * |s|;
    forall k | 0 <= k < 8 * |s|
      ensures BitsOf(s)[k] == r[k]
    {
      if k < 8 {
        EightBitsAt(s[0], k);
      } else {
        assert (k - 8) / 8 == k / 8 - 1 && (k - 8) % 8 == k % 8;
      }
    }
  }

  lemma EightBitsAt(b: Byte, k: nat)
    requires k < 8
    ensures |ByteBits(b, 8)| == 8 && ByteBits(b, 8)[k] == Bit(b, k)
  {
    hide Bit, ByteBits;
    EightBits(b);
    match k {
      case 0 => case 1 => case 2 => case 3 => case 4 => case 5 => case 6 => case _ =>
    }
  }

  /** The bytes of a number hold its bits. */
  lemma {:induction false} BitsOfNumber(v: nat, k: nat)
    ensures BitsOf(LittleEndian(v, k)) == ToBits(v, 8 * k)
    decreases k
  {
    hide BitsOf, ByteBits, ByteOf;
    if k == 0 {
      assert BitsOf([]) == [];
      NoBits(v);
    } else {
      BitsOfFirst(LittleEndian(v, k));
      assert LittleEndian(v, k)[1..] == LittleEndian(v / 256, k - 1);
      BitsOfNumber(v / 256, k - 1);
      ByteBitsAreItsNumber(ByteOf(v), 8);
      LowEightBits(v, 8 * k);
    }
  }

  lemma LowEightBits(v: nat, n: nat)
    requires n >= 8
    ensures ToBits(v, n) == ToBits(ByteOf(v) as nat, 8) + ToBits(v / 256, n - 8)
  {
    hide ToBits, ByteOf, Shifted;
    ByteOfIs(v);
    SplitBits(v, 8, n - 8);
    ShiftedByEight(v);
    Pow2Eight();
    RemainderBits(v, 8);
  }

  lemma ByteOfIs(v: nat)
    ensures ByteOf(v) as nat == v % 256
  {
    NumberOfByte(v % 256);
  }

  lemma Pow2Eight()
    ensures Pow2(8) == 256
  {
    assert Pow2(4) == 16;
  }

  /** v >> m */
  function Shifted(v: nat, m: nat): nat
    decreases m
  {
    if m == 0 then v else Shifted(v / 2, m - 1)
  }

  lemma ShiftedByEight(v: nat)
    ensures Shifted(v, 8) == v / 256
  {
    assert Shifted(v, 8) == Shifted(v / 2 / 2 / 2 / 2, 4);
    assert v / 2 / 2 / 2 / 2 == v / 16 && v / 16 / 2 / 2 / 2 / 2 == v / 256;
  }

  lemma {:induction false} SplitBits(v: nat, m: nat, n: nat)
    ensures ToBits(v, m + n) == ToBits(v, m) + ToBits(Shifted(v, m), n)
    decreases m
  {
    if m > 0 {
      SplitBits(v / 2, m - 1, n);
    }
  }

  lemma {:induction false} RemainderBits(v: nat, m: nat)
    ensures ToBits(v % Pow2(m), m) == ToBits(v, m)
    decreases m
  {
    hide ToBits;
    if m == 0 {
      NoBits(v);
      NoBits(v % Pow2(0));
    } else {
      var x := v / 2 % Pow2(m - 1);
      Halves(v, Pow2(m - 1));
      RemainderBits(v / 2, m - 1);
      LowBit(v % 2, x);
      BitsStep(v, m);
      BitsStep(v % 2 + 2 * x, m);
    }
  }

  lemma LowBit(b: nat, x: nat)
    requires b < 2
    ensures (b + 2 * x) % 2 == b && (b + 2 * x) / 2 == x
  {
  }

  lemma BitsStep(v: nat, n: nat)
    requires n > 0
    ensures ToBits(v, n) == [v % 2 == 1] + ToBits(v / 2, n - 1)
  {
  }

  /** The number that bytes hold is the number that their bits hold. */
  lemma {:induction false} ValueOfBits(s: Bytes)
    ensures ValueOf(s) == FromBits(BitsOf(s))
  {
    hide BitsOf, ByteBits, FromBits;
    if s == [] {
      NothingHeld();
    } else {
      BitsOfFirst(s);
      ValueOfBits(s[1..]);
      ByteValue(s[0]);
      Pow2Eight();
      FromConcat(ByteBits(s[0], 8), BitsOf(s[1..]));
    }
  }

  lemma NothingHeld()
    ensures FromBits(BitsOf([])) == 0
  {
    assert BitsOf([]) == [];
  }

  lemma ByteValue(b: Byte)
    ensures |ByteBits(b, 8)| == 8 && FromBits(ByteBits(b, 8)) == b as nat
  {
    hide ByteBits, FromBits, ToBits;
    ByteBitsAreItsNumber(b, 8);
    FromTo(b as nat, 8);
    Pow2Eight();
    SmallRemainder(b as nat);
  }

  lemma SmallRemainder(v: nat)
    ensures v < 256 ==> v % 256 == v
  {
  }

  lemma {:induction false} FromConcat(a: Bits, b: Bits)
    ensures FromBits(a + b) == FromBits(a) + Pow2(|a|) * FromBits(b)
  {
    if a == [] {
      assert a + b == b;
    } else {
      assert (a + b)[1..] == a[1..] + b;
      FromConcat(a[1..], b);
      Reassociate(2, Pow2(|a| - 1), FromBits(b));
    }
  }

  // ---------------------------------------------------------------------------------------------
  // Packets

  datatype Algo = U | A1

  /** size bits at position offset hold the value found at path. */
  datatype Field = Field(offset: nat, size: nat, algo: Algo, path: string) {
    predicate Covers(k: nat) {
      offset <= k < offset + size
    }
  }

  datatype Value = Number(n: nat) | Array(items: seq<int>)

  type Root = map<string, Value>

  /** The value can go into the field: a number below 2^64, or an array that is not too long. */
  predicate Suits(f: Field, v: Value) {
    match f.algo
    case U => v.Number? && v.n < TWO64 && 0 < f.size <= 64
    case A1 => v.Array? && |v.items| <= f.size
  }

  /** item & 1 */
  function ItemBits(items: seq<int>): (r: Bits)
    ensures |r| == |items|
  {
    seq(|items|, i requires 0 <= i < |items| => items[i] % 2 == 1)
  }

  function FieldBits(f: Field, v: Value): (r: Bits)
    requires Suits(f, v)
    ensures |r| == f.size
  {
    match v
    case Number(n) => ToBits(n, f.size)
    case Array(items) => ItemBits(items) + Falses(f.size - |items|)
  }

  /** The value a field with these bits stands for. */
  function Read(f: Field, b: Bits): Value {
    match f.algo
    case U => Number(FromBits(b))
    case A1 => Array(seq(|b|, i requires 0 <= i < |b| => if b[i] then 1 else 0))
  }

  predicate Inside(fields: seq<Field>, len: nat) {
    forall f :: f in fields ==> f.offset + f.size <= len
  }

  predicate AllSuit(fields: seq<Field>, root: Root) {
    forall f :: f in fields ==> f.path in root && Suits(f, root[f.path])
  }

  predicate FieldsApart(f: Field, g: Field) {
    f.offset + f.size <= g.offset || g.offset + g.size <= f.offset
  }

  predicate Disjoint(fields: seq<Field>) {
    forall i, j :: 0 <= i < j < |fields| ==> FieldsApart(fields[i], fields[j])
  }

  predicate Covered(fields: seq<Field>, k: nat) {
    exists f :: f in fields && f.Covers(k)
  }

  /** The packet after all fields have been put in, one after the other. */
  function Packed(s: Bits, fields: seq<Field>, root: Root): (r: Bits)
    requires Inside(fields, |s|) && AllSuit(fields, root)
    ensures |r| == |s|
  {
    if fields == [] then s
    else
      var n := |fields| - 1;
      Spliced(Packed(s, fields[..n], root), fields[n].offset, FieldBits(fields[n], root[fields[n].path]))
  }

  /** Every field is as it was put in, though other fields were put in later. */
  lemma {:induction false} FieldKept(s: Bits, fields: seq<Field>, root: Root, i: nat)
    requires Inside(fields, |s|) && AllSuit(fields, root) && Disjoint(fields) && i < |fields|
    ensures var f := fields[i];
            Packed(s, fields, root)[f.offset..f.offset + f.size] == FieldBits(f, root[f.path])
    decreases |fields|
  {
    hide FieldBits, Suits, Spliced;
    var n, f := |fields| - 1, fields[i];
    var before, g := Packed(s, fields[..n], root), fields[n];
    var x := FieldBits(g, root[g.path]);
    if i == n {
      SpliceArrives(before, g.offset, x);
    } else {
      FieldKept(s, fields[..n], root, i);
      assert FieldsApart(fields[i], fields[n]);
      SpliceSpares(before, g.offset, x, f.offset, f.offset + f.size);
    }
  }

  /** All else is as before. */
  lemma {:induction false} OutsideKept(s: Bits, fields: seq<Field>, root: Root, k: nat)
    requires Inside(fields, |s|) && AllSuit(fields, root) && k < |s| && !Covered(fields, k)
    ensures Packed(s, fields, root)[k] == s[k]
    decreases |fields|
  {
    hide FieldBits, Suits, Spliced;
    if fields != [] {
      var n := |fields| - 1;
      var before, g := Packed(s, fields[..n], root), fields[n];
      assert g in fields && !Covered(fields[..n], k);
      OutsideKept(s, fields[..n], root, k);
      SpliceSparesAt(before, g.offset, FieldBits(g, root[g.path]), k);
    }
  }

  lemma SpliceSparesAt(s: Bits, d: nat, x: Bits, k: nat)
    requires d + |x| <= |s| && k < |s|
    ensures k < d || d + |x| <= k ==> Spliced(s, d, x)[k] == s[k]
  {
  }

  lemma SpliceArrives(s: Bits, d: nat, x: Bits)
    requires d + |x| <= |s|
    ensures Spliced(s, d, x)[d..d + |x|] == x
  {
  }

  lemma SpliceSpares(s: Bits, d: nat, x: Bits, a: nat, b: nat)
    requires d + |x| <= |s| && a <= b <= |s|
    ensures b <= d || d + |x| <= a ==> Spliced(s, d, x)[a..b] == s[a..b]
  {
  }

  /** The value fits the field exactly. */
  predicate Fits(f: Field, v: Value)
    requires Suits(f, v)
  {
    match v
    case Number(n) => n < Pow2(f.size)
    case Array(items) => |items| == f.size && forall i :: 0 <= i < |items| ==> 0 <= items[i] <= 1
  }

  /** A field gives back exactly the values that fit it. */
  lemma ReadBackIff(f: Field, v: Value)
    requires Suits(f, v)
    ensures Read(f, FieldBits(f, v)) == v <==> Fits(f, v)
  {
    match v {
      case Number(n) =>
        FromTo(n, f.size);
        Below(n, Pow2(f.size));
      case Array(items) =>
        ArrayReadBack(f, items);
    }
  }

  lemma Below(n: nat, p: nat)
    requires p > 0
    ensures n % p == n <==> n < p
  {
  }

  lemma ArrayReadBack(f: Field, items: seq<int>)
    requires f.algo == A1 && |items| <= f.size
    ensures Read(f, FieldBits(f, Array(items))) == Array(items) <==> Fits(f, Array(items))
  {
    var b := FieldBits(f, Array(items));
    var r := Read(f, b).items;
    assert forall i :: 0 <= i < |items| ==> r[i] == if items[i] % 2 == 1 then 1 else 0;
    if Fits(f, Array(items)) {
      assert r == items;
    }
    if r == items {
      assert forall i :: 0 <= i < |items| ==> items[i] == r[i];
    }
  }

  /** Taking a packet apart gives every value that fits its field, whatever was in the packet before. */
  lemma RoundTrip(s: Bits, fields: seq<Field>, root: Root, f: Field)
    requires Inside(fields, |s|) && AllSuit(fields, root) && Disjoint(fields) && f in fields
    ensures Read(f, Packed(s, fields, root)[f.offset..f.offset + f.size]) == root[f.path] <==> Fits(f, root[f.path])
  {
    hide Read, FieldBits, Suits, Packed, Fits;
    var i :| 0 <= i < |fields| && fields[i] == f;
    FieldKept(s, fields, root, i);
    ReadBackIff(f, root[f.path]);
  }

  /** The order in which the fields are put in does not matter. */
  lemma OrderIrrelevant(s: Bits, a: seq<Field>, b: seq<Field>, root: Root)
    requires Inside(a, |s|) && AllSuit(a, root) && Disjoint(a) && Disjoint(b)
    requires forall f :: f in a <==> f in b
    ensures Inside(b, |s|) && AllSuit(b, root) && Packed(s, a, root) == Packed(s, b, root)
  {
    hide FieldBits, Suits, Packed, Disjoint, Inside;
    assert Inside(b, |s|) by { InsideSame(a, b, |s|); }
    var p, q := Packed(s, a, root), Packed(s, b, root);
    forall k | 0 <= k < |s|
      ensures p[k] == q[k]
    {
      if Covered(a, k) {
        var f :| f in a && f.Covers(k);
        BitOfField(s, a, root, f, k);
        BitOfField(s, b, root, f, k);
      } else {
        assert !Covered(b, k);
        OutsideKept(s, a, root, k);
        OutsideKept(s, b, root, k);
      }
    }
  }

  lemma InsideSame(a: seq<Field>, b: seq<Field>, len: nat)
    requires Inside(a, len) && forall f :: f in a <==> f in b
    ensures Inside(b, len)
  {
  }

  lemma BitOfField(s: Bits, fields: seq<Field>, root: Root, f: Field, k: nat)
    requires Inside(fields, |s|) && AllSuit(fields, root) && Disjoint(fields) && f in fields && f.Covers(k)
    ensures k < |s| && Packed(s, fields, root)[k] == FieldBits(f, root[f.path])[k - f.offset]
  {
    hide FieldBits, Suits, Packed;
    var i :| 0 <= i < |fields| && fields[i] == f;
    FieldKept(s, fields, root, i);
    var p := Packed(s, fields, root);
    assert p[k] == p[f.offset..f.offset + f.size][k - f.offset];
  }

  /** Bit i of a field in a packet is bit i of its number, counted from the lowest, or the lowest bit of item i; items
      that are missing count as zero. */
  lemma PacketBit(s: Bits, fields: seq<Field>, root: Root, f: Field, i: nat)
    requires Inside(fields, |s|) && AllSuit(fields, root) && Disjoint(fields) && f in fields && i < f.size
    ensures f.offset + i < |s|
    ensures var v := root[f.path];
            Packed(s, fields, root)[f.offset + i]
              == if v.Number? then v.n / Pow2(i) % 2 == 1 else i < |v.items| && v.items[i] % 2 == 1
  {
    hide Packed;
    BitOfField(s, fields, root, f, f.offset + i);
    if root[f.path].Number? {
      BitOfNumber(root[f.path].n, f.size, i);
    }
  }

  lemma {:induction false} BitOfNumber(v: nat, n: nat, i: nat)
    requires i < n
    ensures ToBits(v, n)[i] <==> v / Pow2(i) % 2 == 1
    decreases i
  {
    if i > 0 {
      BitOfNumber(v / 2, n - 1, i - 1);
      HalfQuotient(v, Pow2(i - 1));
    }
  }

  lemma HalfQuotient(v: nat, p: nat)
    requires p > 0
    ensures v / (2 * p) == v / 2 / p
  {
    var q, r := v / 2 / p, v / 2 % p;
    assert v / 2 == p * q + r;
    Doubled(p, q);
    QuotientUnique(v, 2 * p, q, 2 * r + v % 2);
  }
}
