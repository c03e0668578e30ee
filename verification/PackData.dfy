/** Putting packets together and taking them apart (periphery/abstraction_mc.cxx). */
module PackData {
  import opened Bytes
  import opened BitStrings
  import opened Blocks
  import opened Buffers
  import opened PackSpec

  const DNK_MAX_VALUE_SIZE: nat := 1000

  /** A scratch buffer is large enough for the field. */
  predicate HasRoom(f: Field) {
    f.size / 8 + 1 <= DNK_MAX_VALUE_SIZE && f.offset + f.size < TWO32
  }

  class DNKchain {
    const createTmp: array<Byte>
    const parseTmp: array<Byte>

    constructor ()
      ensures createTmp.Length == parseTmp.Length == DNK_MAX_VALUE_SIZE && createTmp != parseTmp
      ensures fresh(createTmp) && fresh(parseTmp)
    {
      createTmp := new Byte[DNK_MAX_VALUE_SIZE];
      parseTmp := new Byte[DNK_MAX_VALUE_SIZE];
    }

    /** MC_CreatePackData_ConvValue: the value in binary at the start of the scratch buffer, which may hold anything behind
        it.  A value that does not suit the field leaves old scratch bits or truncates. */
    method CreateConvValue(f: Field, value: Value, result: array<Byte>) returns (ok: bool)
      requires result.Length == DNK_MAX_VALUE_SIZE && HasRoom(f)
      modifies result
      ensures ok == (value.Array? || f.algo == U)
      ensures Suits(f, value) ==> BitsOf(result[..])[..f.size] == FieldBits(f, value)
      ensures value.Array? && (f.algo == U || |value.items| > f.size) ==> result[..] == old(result[..])
      ensures value.Number? && f.algo == A1 ==> result[..] == old(result[..])
    {
      match value {
        case Array(items) =>
          if f.algo == A1 && |items| <= f.size {
            ConvArray(f, items, result);
          }
          return true;
        case Number(n) =>
          if f.algo != U {
            return false;
          }
          ConvNumber(f, n, result);
          return true;
      }
    }

    /** memcpy of a 32-bit or 64-bit variable. */
    method ConvNumber(f: Field, n: nat, result: array<Byte>)
      requires result.Length == DNK_MAX_VALUE_SIZE
      modifies result
      ensures Suits(f, Number(n)) ==> BitsOf(result[..])[..f.size] == FieldBits(f, Number(n))
    {
      hide BitsOf, FieldBits, LittleEndian;
      var bytes := if f.size <= 32 then LittleEndian(n % TWO32, 4) else LittleEndian(n % TWO64, 8);
      ghost var was := result[..];
      forall k | 0 <= k < |bytes| {
        result[k] := bytes[k];
      }
      assert result[..] == bytes + was[|bytes|..];
      if Suits(f, Number(n)) {
        NumberBits(f, n, bytes, was[|bytes|..]);
      }
    }

    /** Clears as many bytes as the array needs and sets its bits. */
    method ConvArray(f: Field, items: seq<int>, result: array<Byte>)
      requires result.Length == DNK_MAX_VALUE_SIZE && HasRoom(f) && f.algo == A1 && |items| <= f.size
      modifies result
      ensures BitsOf(result[..])[..f.size] == FieldBits(f, Array(items))
    {
      hide Bit, BitsOf, Spliced, WithBit, OrBit, ItemBits, FieldBits;
      ghost var old0 := result[..];
      forall k | 0 <= k < f.size / 8 + 1 {
        result[k] := 0;
      }
      assert result[..] == Zeros(f.size / 8 + 1) + old0[f.size / 8 + 1..];
      ghost var was, x := BitsOf(result[..]), ItemBits(items);
      SplicedEnds(was, 0, x);
      var i := 0;
      while i < |items|
        invariant i <= |items|
        invariant BitsOf(result[..]) == Spliced(was, 0, x[..i])
      {
        ghost var before := result[..];
        ClearedBits(f.size / 8 + 1, old0[f.size / 8 + 1..], i);
        BitTaken(before, was, x, i);
        ItemBitAt(items, i);
        var rezd := i / 8;
        OrInto(result, rezd, i - rezd * 8, items[i] % 2 == 1);
        i := i + 1;
      }
      ArrayBits(f, items, old0[f.size / 8 + 1..]);
    }

    /** Puts every field into the packet, in the order given; the result is the least number of bytes that holds all of
        them. */
    method CreatePackData(fields: seq<Field>, root: Root, buf: array<Byte>) returns (bufsize: nat)
      requires createTmp.Length == DNK_MAX_VALUE_SIZE && buf != createTmp
      requires forall f :: f in fields ==> HasRoom(f) && f.offset + f.size <= 8 * buf.Length
      modifies buf, createTmp
      ensures AllSuit(fields, root) ==>
                Inside(fields, |old(BitsOf(buf[..]))|)
                && BitsOf(buf[..]) == Packed(old(BitsOf(buf[..])), fields, root)
      ensures forall k :: 0 <= k < 8 * buf.Length && !Covered(fields, k) ==>
                BitsOf(buf[..])[k] == old(BitsOf(buf[..]))[k]
      ensures LeastBytes(fields, bufsize)
    {
      hide BitsOf, FieldBits, Suits, Packed, Spliced;
      ghost var was := BitsOf(buf[..]);
      bufsize := 0;
      PackedNone(was, root);
      assert fields[..0] == [];
      var i := 0;
      while i < |fields|
        invariant i <= |fields| && LeastBytes(fields[..i], bufsize)
        invariant AllSuit(fields, root) ==> BitsOf(buf[..]) == PackedFirst(was, fields, root, i)
        invariant UncoveredKept(was, BitsOf(buf[..]), fields)
      {
        var f := fields[i];
        var ok := false;
        if f.path in root {
          ok := CreateConvValue(f, root[f.path], createTmp);
        }
        ghost var before, bits := BitsOf(buf[..]), BitsOf(createTmp[..])[0..0 + f.size];
        var bsize := BitCopy(buf, f.offset, f.size, createTmp, 0);
        if AllSuit(fields, root) {
          assert bits == BitsOf(createTmp[..])[..f.size] == FieldBits(f, root[f.path]);
          PackedNext(was, fields, root, i);
        }
        UncoveredStays(was, before, fields, f, bits);
        LeastBytesMore(fields, i, bufsize, bsize);
        if bsize > bufsize {
          bufsize := bsize;
        }
        i := i + 1;
      }
      assert fields[..i] == fields;
    }

    /** Takes the fields out of a packet, in the order given: the paths and values that are then stored. */
    method ParsePackData(fields: seq<Field>, buf: array<Byte>) returns (stored: seq<(string, Value)>)
      requires parseTmp.Length == DNK_MAX_VALUE_SIZE && buf != parseTmp
      requires forall f :: f in fields ==>
                 HasRoom(f) && f.offset + f.size <= 8 * buf.Length && (f.algo == U ==> f.size <= 64)
      modifies parseTmp
      ensures |stored| == |fields|
      ensures forall i :: 0 <= i < |fields| ==>
                stored[i] == (fields[i].path, Read(fields[i], FieldOf(BitsOf(buf[..]), fields[i])))
    {
      hide BitsOf, Read, Spliced;
      stored := [];
      ghost var packet := BitsOf(buf[..]);
      var i := 0;
      while i < |fields|
        invariant i <= |fields| == |stored| + (|fields| - i) && BitsOf(buf[..]) == packet
        invariant forall j :: 0 <= j < i ==> stored[j] == (fields[j].path, Read(fields[j], FieldOf(packet, fields[j])))
      {
        var f := fields[i];
        ghost var before := BitsOf(parseTmp[..]);
        var _ := BitCopy(parseTmp, 0, f.size, buf, f.offset);
        SpliceArrives(before, 0, FieldOf(packet, f));
        var v := ParseConvValue(f, parseTmp);
        stored := stored + [(f.path, v)];
        i := i + 1;
      }
    }

    /** MC_ParsePackData_ConvValue */
    method ParseConvValue(f: Field, value: array<Byte>) returns (v: Value)
      requires value.Length == DNK_MAX_VALUE_SIZE && HasRoom(f) && (f.algo == U ==> f.size <= 64)
      ensures v == Read(f, BitsOf(value[..])[0..0 + f.size])
    {
      if f.algo == U {
        var n := ParseNumber(f.size, value);
        return Number(n);
      }
      var arr: seq<int> := [];
      ghost var b := BitsOf(value[..])[0..0 + f.size];
      for n := 0 to f.size
        invariant |arr| == n
        invariant forall j :: 0 <= j < n ==> arr[j] == if b[j] then 1 else 0
      {
        BitAt(value[..], n);
        var rezd := n / 8;
        arr := arr + [if Bit(value[rezd], n - rezd * 8) then 1 else 0];
      }
      return Array(arr);
    }

    /** A zeroed 32-bit or 64-bit variable takes the bits over: as bytes if they are whole ones. */
    method ParseNumber(size: nat, value: array<Byte>) returns (n: nat)
      requires value.Length == DNK_MAX_VALUE_SIZE && size <= 64
      ensures n == FromBits(BitsOf(value[..])[0..0 + size])
    {
      hide BitsOf, Spliced, FromBits, ValueOf;
      var bytes := if size < 32 then 4 else 8;
      var word := new Byte[bytes](_ => 0);
      assert word[..] == Zeros(bytes);
      ghost var whole := value[..];
      ghost var b := BitsOf(whole)[0..0 + size];
      if size % 8 == 0 {
        forall k | 0 <= k < size / 8 {
          word[k] := value[k];
        }
        assert word[..] == whole[..size / 8] + Zeros(bytes - size / 8);
        WholeBytes(whole, size / 8, bytes - size / 8);
        assert 8 * (size / 8) == size && 8 * (bytes - size / 8) == 8 * bytes - size;
      } else {
        var _ := BitCopy(word, 0, size, value, 0);
        IntoZeros(bytes, b);
      }
      assert value[..] == whole;
      assert BitsOf(word[..]) == b + Falses(8 * bytes - size);
      ValueOfBits(word[..]);
      FromPadded(b, 8 * bytes - size);
      return ValueOf(word[..]);
    }
  }

  function FieldOf(packet: Bits, f: Field): Bits
    requires f.offset + f.size <= |packet|
  {
    packet[f.offset..f.offset + f.size]
  }

  /** No bit outside the fields has changed. */
  ghost predicate UncoveredKept(was: Bits, now: Bits, fields: seq<Field>) {
    |was| == |now| && forall k :: 0 <= k < |was| && !Covered(fields, k) ==> now[k] == was[k]
  }

  lemma UncoveredStays(was: Bits, now: Bits, fields: seq<Field>, f: Field, x: Bits)
    requires UncoveredKept(was, now, fields) && f in fields && |x| == f.size && f.offset + f.size <= |now|
    ensures UncoveredKept(was, Spliced(now, f.offset, x), fields)
  {
    hide Spliced;
    forall k | 0 <= k < |was| && !Covered(fields, k)
      ensures Spliced(now, f.offset, x)[k] == was[k]
    {
      assert !f.Covers(k);
      SpliceSparesAt(now, f.offset, x, k);
    }
  }

  /** n bytes hold all fields and no fewer do. */
  predicate LeastBytes(fields: seq<Field>, n: nat) {
    && (forall f :: f in fields ==> f.offset + f.size <= 8 * n)
    && (n > 0 ==> exists f :: f in fields && f.offset + f.size > 8 * (n - 1))
  }

  lemma LeastBytesMore(fields: seq<Field>, i: nat, n: nat, m: nat)
    requires i < |fields| && LeastBytes(fields[..i], n)
    requires fields[i].offset + fields[i].size <= 8 * m < fields[i].offset + fields[i].size + 8
    ensures LeastBytes(fields[..i + 1], if m > n then m else n)
  {
    assert fields[..i + 1] == fields[..i] + [fields[i]];
    if m > n {
      assert fields[i] in fields[..i + 1];
    } else if n > 0 {
      var f :| f in fields[..i] && f.offset + f.size > 8 * (n - 1);
      assert f in fields[..i + 1];
    }
  }

  /** The packet after the first i fields. */
  function PackedFirst(s: Bits, fields: seq<Field>, root: Root, i: nat): Bits
    requires Inside(fields, |s|) && AllSuit(fields, root) && i <= |fields|
  {
    Packed(s, fields[..i], root)
  }

  lemma PackedNone(s: Bits, root: Root)
    ensures Packed(s, [], root) == s
  {
  }

  lemma PackedNext(s: Bits, fields: seq<Field>, root: Root, i: nat)
    requires Inside(fields, |s|) && AllSuit(fields, root) && i < |fields|
    ensures PackedFirst(s, fields, root, i + 1)
         == Spliced(PackedFirst(s, fields, root, i), fields[i].offset, FieldBits(fields[i], root[fields[i].path]))
  {
    hide FieldBits, Suits, Spliced;
    assert fields[..i + 1][..i] == fields[..i];
  }

  lemma WholeBytes(s: Bytes, k: nat, n: nat)
    requires k <= |s|
    ensures BitsOf(s[..k] + Zeros(n)) == BitsOf(s)[0..0 + 8 * k] + Falses(8 * n)
  {
    hide Bit;
    forall i | 8 * k <= i < 8 * (k + n)
      ensures !BitsOf(s[..k] + Zeros(n))[i]
    {
      ZeroBit(i % 8);
    }
  }

  lemma IntoZeros(n: nat, b: Bits)
    requires |b| <= 8 * n
    ensures Spliced(BitsOf(Zeros(n)), 0, b) == b + Falses(8 * n - |b|)
  {
    hide Bit;
    forall i | 0 <= i < 8 * n
      ensures !BitsOf(Zeros(n))[i]
    {
      ZeroBit(i % 8);
    }
  }

  lemma ItemBitAt(items: seq<int>, i: nat)
    requires i < |items|
    ensures ItemBits(items)[i] == (items[i] % 2 == 1)
  {
  }

  lemma ClearedBits(n: nat, rest: Bytes, k: nat)
    requires k < 8 * n
    ensures !BitsOf(Zeros(n) + rest)[k]
  {
    hide Bit;
    ZeroBit(k % 8);
  }

  lemma ArrayBits(f: Field, items: seq<int>, rest: Bytes)
    requires f.algo == A1 && |items| <= f.size
    ensures Spliced(BitsOf(Zeros(f.size / 8 + 1) + rest), 0, ItemBits(items))[..f.size] == FieldBits(f, Array(items))
  {
    hide Bit, BitsOf, ItemBits;
    var was := BitsOf(Zeros(f.size / 8 + 1) + rest);
    forall k | 0 <= k < f.size
      ensures !was[k]
    {
      ClearedBits(f.size / 8 + 1, rest, k);
    }
  }

  lemma NumberBits(f: Field, n: nat, bytes: Bytes, rest: Bytes)
    requires Suits(f, Number(n))
    requires bytes == if f.size <= 32 then LittleEndian(n % TWO32, 4) else LittleEndian(n % TWO64, 8)
    ensures BitsOf(bytes + rest)[..f.size] == FieldBits(f, Number(n))
  {
    hide BitsOf, LittleEndian, ToBits;
    var w := if f.size <= 32 then 32 else 64;
    BitsOfNumber(if f.size <= 32 then n % TWO32 else n % TWO64, w / 8);
    Pow2Large();
    RemainderBits(n, w);
    BitsOfPrefix(bytes, rest);
    SplitBits(n, f.size, w - f.size);
  }

  lemma Pow2Large()
    ensures Pow2(32) == TWO32 && Pow2(64) == TWO64
  {
    hide Pow2;
    Pow2Eight();
    Pow2Sum(8, 8);
    Pow2Sum(16, 16);
    Pow2Sum(32, 32);
  }

  lemma {:induction false} Pow2Sum(a: nat, b: nat)
    ensures Pow2(a + b) == Pow2(a) * Pow2(b)
  {
    if a > 0 {
      Pow2Sum(a - 1, b);
      Reassociate(2, Pow2(a - 1), Pow2(b));
    }
  }

  lemma BitsOfPrefix(s: Bytes, t: Bytes)
    ensures BitsOf(s + t)[..8 * |s|] == BitsOf(s)
  {
    hide Bit;
  }
}
