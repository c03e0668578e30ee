/** Archive file names and their parser (logger/dnk_biphasic_offset.h). */
module DalFilename {
  import opened Bytes
  import opened Numerals

  const DOT: Byte := 46
  const CLOSE: Byte := 93
  const OPEN: Byte := 91
  const COLON: Byte := 58
  const UNDERSCORE: Byte := 95
  const SLASH: Byte := 47

  datatype FnInfo = FnInfo(start: U32, stop: U32, items: U32, crc32: U32, extension: Bytes)

  /** "%u_%u:%u[%08x].z" */
  function GenZipName(start: U32, stop: U32, count: U32, crc32: U32): Bytes {
    PrintDec(start) + [UNDERSCORE] + PrintDec(stop) + [COLON] + PrintDec(count)
    + [OPEN] + PrintHex(crc32, 8) + [CLOSE] + [DOT] + [122]
  }

  /** A generated name is text: its first number is followed by an underscore, and so on, and its last fourteen bytes are
      a bracketed checksum of eight small hexadecimal digits and the extension .z. */
  lemma NameLayout(start: U32, stop: U32, count: U32, crc32: U32)
    ensures var name, i := GenZipName(start, stop, count, crc32), |PrintDec(start)|;
            var j := i + 1 + |PrintDec(stop)|;
            var k := |name| - 12;
            && i < j < k && name[i] == 95 && name[j] == 58 && name[k] == 91 && name[k + 9..] == [93, 46, 122]
            && name[..i] == PrintDec(start) && name[i + 1..j] == PrintDec(stop) && name[j + 1..k] == PrintDec(count)
            && (forall n :: k < n < k + 9 ==> 48 <= name[n] <= 57 || 97 <= name[n] <= 102)
  {
    hide PrintDec, PrintHex;
    var name, k := GenZipName(start, stop, count, crc32), |GenZipName(start, stop, count, crc32)| - 12;
    assert name[k + 1..k + 9] == PrintHex(crc32, 8);
    HexIsSmall(crc32, 8);
    forall n | k < n < k + 9
      ensures name[n] == PrintHex(crc32, 8)[n - k - 1]
    {
      assert name[n] == name[k + 1..k + 9][n - k - 1];
    }
  }

  predicate Plain(c: Byte) {
    c != DOT && c != CLOSE && c != OPEN && c != COLON && c != UNDERSCORE && c != SLASH && c != 0
  }

  predicate AllPlain(s: Bytes) {
    forall i :: 0 <= i < |s| ==> Plain(s[i])
  }

  /** The bytes from a position up to the next zero. */
  function CString(buf: Bytes, at: nat): (r: Bytes)
    requires at <= |buf|
    decreases |buf| - at
  {
    if at == |buf| || buf[at] == 0 then [] else [buf[at]] + CString(buf, at + 1)
  }

  /** What the scan makes of the delimiter at position k, in the state it expects there: the buffer is cut, and what
      follows is the value of a field. */
  function Field(c: Byte, text: Bytes, fn: FnInfo): FnInfo {
    if c == DOT then fn.(extension := text)
    else if c == OPEN then fn.(crc32 := Wrap(ReadDigits(text, 0)))
    else if c == COLON then fn.(items := Wrap(ReadDec(text, 0)))
    else if c == UNDERSCORE then fn.(stop := Wrap(ReadDec(text, 0)))
    else if c == SLASH then fn.(start := Wrap(ReadDec(text, 0)))
    else fn
  }

  /** The number of delimiters that have to lie behind this one. */
  function Rank(c: Byte): nat {
    if c == DOT then 0 else if c == CLOSE then 1 else if c == OPEN then 2
    else if c == COLON then 3 else if c == UNDERSCORE then 4 else 5
  }

  /** The scan from position n - 1 backwards: whether all six fields have been found, and what has been found. */
  function Scan(buf: Bytes, n: nat, counter: nat, fn: FnInfo): (bool, FnInfo)
    requires n < |buf|
    decreases n
  {
    if n == 0 then (counter == 6, fn)
    else
      var c, cut := buf[n - 1], buf[n - 1 := 0];
      if !Plain(c) && c != 0 then
        if counter != Rank(c) then (counter == 6, fn)
        else if c == SLASH then (true, Field(c, CString(cut, n), fn))
        else Scan(cut, n - 1, counter + 1, Field(c, CString(cut, n), fn))
      else if n == 1 then
        if counter != 5 then (counter == 6, fn)
        else (true, fn.(start := Wrap(ReadDec(CString(buf, 0), 0))))
      else Scan(buf, n - 1, counter, fn)
  }

  /** Characters that are no delimiters are passed over. */
  lemma {:induction false} PlainSkipped(x: Bytes, seg: Bytes, y: Bytes, counter: nat, fn: FnInfo)
    requires AllPlain(seg) && x != [] && y != []
    ensures Scan(x + seg + y, |x| + |seg|, counter, fn) == Scan(x + seg + y, |x|, counter, fn)
    decreases |seg|
  {
    hide Field, CString;
    if seg != [] {
      var m := |seg| - 1;
      assert x + seg + y == x + seg[..m] + ([seg[m]] + y);
      assert (x + seg + y)[|x| + m] == seg[m];
      PlainSkipped(x, seg[..m], [seg[m]] + y, counter, fn);
    }
  }

  lemma {:induction false} CStringIs(x: Bytes, seg: Bytes, y: Bytes)
    requires AllPlain(seg)
    ensures CString(x + seg + [0] + y, |x|) == seg
    decreases |seg|
  {
    var s := x + seg + [0] + y;
    if seg != [] {
      assert s == (x + [seg[0]]) + seg[1..] + [0] + y;
      CStringIs(x + [seg[0]], seg[1..], y);
      assert s[|x|] == seg[0];
    } else {
      assert s[|x|] == 0;
    }
  }

  /** One field: its characters and the delimiter before it. */
  lemma FieldScanned(x: Bytes, c: Byte, seg: Bytes, y: Bytes, counter: nat, fn: FnInfo)
    requires AllPlain(seg) && !Plain(c) && c != 0 && c != SLASH && counter == Rank(c)
    ensures Scan(x + [c] + seg + [0] + y, |x| + 1 + |seg|, counter, fn)
         == Scan(x + [0] + seg + [0] + y, |x|, counter + 1, Field(c, seg, fn))
  {
    hide Field, CString, Plain, Rank;
    var s := x + [c] + seg + [0] + y;
    assert s == (x + [c]) + seg + ([0] + y);
    PlainSkipped(x + [c], seg, [0] + y, counter, fn);
    assert s[|x|] == c;
    assert s[|x| := 0] == (x + [0]) + seg + [0] + y;
    CStringIs(x + [0], seg, y);
  }

  lemma DigitsArePlain(s: Bytes)
    requires (forall i :: 0 <= i < |s| ==> IsDec(s[i])) || (forall i :: 0 <= i < |s| ==> DigitValue(s[i]).Some?)
    ensures AllPlain(s)
  {
  }

  /** The first number of a name: up to the slash before it, or to the start of the name. */
  lemma StartScanned(prefix: Bytes, seg: Bytes, y: Bytes, fn: FnInfo)
    requires AllPlain(seg) && seg != []
    requires prefix == [] || prefix[|prefix| - 1] == SLASH
    ensures Scan(prefix + seg + [0] + y, |prefix| + |seg|, 5, fn)
         == (true, fn.(start := Wrap(ReadDec(seg, 0))))
  {
    hide CString, Plain, ReadDec, Wrap;
    var s := prefix + seg + [0] + y;
    if prefix == [] {
      assert s == [seg[0]] + seg[1..] + ([0] + y);
      PlainSkipped([seg[0]], seg[1..], [0] + y, 5, fn);
      assert s == [] + seg + [0] + y;
      CStringIs([], seg, y);
      assert Plain(s[0]);
    } else {
      var k := |prefix| - 1;
      SlashIsNotPlain();
      assert s == prefix + seg + ([0] + y);
      PlainSkipped(prefix, seg, [0] + y, 5, fn);
      assert s[k] == SLASH;
      assert s[k := 0] == (prefix[..k] + [0]) + seg + [0] + y;
      CStringIs(prefix[..k] + [0], seg, y);
    }
  }

  lemma SlashIsNotPlain()
    ensures !Plain(SLASH)
  {
  }

  lemma DotScanned(x: Bytes, fn: FnInfo)
    ensures Scan(x + [DOT, 122, 0], |x| + 2, 0, fn) == Scan(x + [0, 122, 0], |x|, 1, Field(DOT, [122], fn))
  {
    hide Scan, Plain;
    DelimitersAreNotPlain();
    assert x + [DOT, 122, 0] == x + [DOT] + [122] + [0] + [];
    FieldScanned(x, DOT, [122], [], 0, fn);
    assert x + [0] + [122] + [0] + [] == x + [0, 122, 0];
  }

  lemma CloseScanned(x: Bytes, fn: FnInfo)
    ensures Scan(x + [CLOSE, 0, 122, 0], |x| + 1, 1, fn) == Scan(x + [0, 0, 122, 0], |x|, 2, fn)
  {
    hide Scan, Plain;
    DelimitersAreNotPlain();
    assert x + [CLOSE, 0, 122, 0] == x + [CLOSE] + [] + [0] + [122, 0];
    FieldScanned(x, CLOSE, [], [122, 0], 1, fn);
    assert x + [0] + [] + [0] + [122, 0] == x + [0, 0, 122, 0];
  }

  lemma CrcScanned(x: Bytes, h: Bytes, fn: FnInfo)
    requires AllPlain(h)
    ensures Scan(x + [OPEN] + h + [0, 0, 122, 0], |x| + 1 + |h|, 2, fn)
         == Scan(x + [0] + (h + [0, 0, 122, 0]), |x|, 3, Field(OPEN, h, fn))
  {
    hide Scan, Plain, Field;
    DelimitersAreNotPlain();
    assert x + [OPEN] + h + [0, 0, 122, 0] == x + [OPEN] + h + [0] + [0, 122, 0];
    FieldScanned(x, OPEN, h, [0, 122, 0], 2, fn);
    assert x + [0] + h + [0] + [0, 122, 0] == x + [0] + (h + [0, 0, 122, 0]);
  }

  /** The extension and the checksum. */
  lemma BackScanned(x: Bytes, h: Bytes, fn: FnInfo)
    requires AllPlain(h)
    ensures Scan(x + [OPEN] + h + [CLOSE, DOT, 122, 0], |x| + |h| + 4, 0, fn)
         == Scan(x + [0] + (h + [0, 0, 122, 0]), |x|, 3, Field(OPEN, h, Field(DOT, [122], fn)))
  {
    hide Scan, Plain, Field;
    var x1 := x + [OPEN] + h;
    assert x1 + [CLOSE, DOT, 122, 0] == (x1 + [CLOSE]) + [DOT, 122, 0];
    DotScanned(x1 + [CLOSE], fn);
    assert (x1 + [CLOSE]) + [0, 122, 0] == x1 + [CLOSE, 0, 122, 0];
    CloseScanned(x1, Field(DOT, [122], fn));
    CrcScanned(x, h, Field(DOT, [122], fn));
  }

  /** The three numbers before them. */
  lemma FrontScanned(prefix: Bytes, a: Bytes, b: Bytes, c: Bytes, y: Bytes, fn: FnInfo)
    requires AllPlain(a) && AllPlain(b) && AllPlain(c) && a != []
    requires prefix == [] || prefix[|prefix| - 1] == SLASH
    ensures Scan(prefix + a + [UNDERSCORE] + b + [COLON] + c + [0] + y, |prefix| + |a| + |b| + |c| + 2, 3, fn)
         == (true, FnInfo(Wrap(ReadDec(a, 0)), Wrap(ReadDec(b, 0)), Wrap(ReadDec(c, 0)), fn.crc32, fn.extension))
  {
    hide Scan, Plain, ReadDec, Wrap;
    DelimitersAreNotPlain();
    var x4 := prefix + a;
    var x3 := x4 + [UNDERSCORE] + b;
    var f3, f4 := Field(COLON, c, fn), Field(UNDERSCORE, b, Field(COLON, c, fn));
    FieldScanned(x3, COLON, c, y, 3, fn);
    var y4 := c + [0] + y;
    assert x3 + [0] + c + [0] + y == x4 + [UNDERSCORE] + b + [0] + y4;
    FieldScanned(x4, UNDERSCORE, b, y4, 4, f3);
    assert x4 + [0] + b + [0] + y4 == prefix + a + [0] + (b + [0] + y4);
    StartScanned(prefix, a, b + [0] + y4, f4);
  }

  /** Every generated name, with a directory before it or without, gives back what it was made of; the count has to be
      one that atoi can represent. */
  lemma ParsesGenerated(prefix: Bytes, start: U32, stop: U32, count: U32, crc32: U32, fn: FnInfo)
    requires count < 0x8000_0000
    requires prefix == [] || prefix[|prefix| - 1] == SLASH
    ensures var name := prefix + GenZipName(start, stop, count, crc32);
            Scan(name + [0], |name|, 0, fn) == (true, FnInfo(start, stop, count, crc32, [122]))
  {
    hide Scan, PrintDec, PrintHex, ReadDec, ReadDigits, DigitValue, IsDec, Plain;
    var a, b, c, h := PrintDec(start), PrintDec(stop), PrintDec(count), PrintHex(crc32, 8);
    DecReadsBack(start);
    DecReadsBack(stop);
    DecReadsBack(count);
    HexReadsBack(crc32);
    DigitsArePlain(a);
    DigitsArePlain(b);
    DigitsArePlain(c);
    DigitsArePlain(h);
    var x := prefix + a + [UNDERSCORE] + b + [COLON] + c;
    var name := prefix + GenZipName(start, stop, count, crc32);
    NameParts(prefix, a, b, c, h);
    BackScanned(x, h, fn);
    FrontScanned(prefix, a, b, c, h + [0, 0, 122, 0], Field(OPEN, h, Field(DOT, [122], fn)));
  }

  lemma NameParts(prefix: Bytes, a: Bytes, b: Bytes, c: Bytes, h: Bytes)
    ensures prefix + (a + [UNDERSCORE] + b + [COLON] + c + [OPEN] + h + [CLOSE] + [DOT] + [122]) + [0]
         == (prefix + a + [UNDERSCORE] + b + [COLON] + c) + [OPEN] + h + [CLOSE, DOT, 122, 0]
  {
  }

  lemma HexReadsBack(n: U32)
    ensures ReadDigits(PrintHex(n, 8), 0) == n
    ensures forall i :: 0 <= i < 8 ==> DigitValue(PrintHex(n, 8)[i]).Some?
  {
    assert Pow16(4) == 0x1_0000 && Pow16(8) == 0x1_0000_0000;
    PrintReadsBack(n, 8);
  }

  lemma DelimitersAreNotPlain()
    ensures !Plain(DOT) && !Plain(CLOSE) && !Plain(OPEN) && !Plain(COLON) && !Plain(UNDERSCORE)
    ensures Plain(122)
  {
  }

  /** The part behind the dot at which the scan starts fits the extension's four bytes. */
  predicate ExtensionFits(fname: Bytes) {
    forall i :: 0 <= i < |fname| && fname[i] == DOT && AllPlain(fname[i + 1..]) ==> |fname| - 1 - i <= 3
  }

  method ParseDalFilename(fname: Bytes, fn0: FnInfo) returns (ok: bool, fn: FnInfo)
    requires |fname| < 0x7FFF_FFFF && 0 !in fname && ExtensionFits(fname)
    ensures (ok, fn) == Scan(fname + [0], |fname|, 0, fn0)
  {
    hide CString, Field, ReadDec, ReadDigits, Wrap;
    var buf := new Byte[|fname| + 1](i requires 0 <= i <= |fname| => if i < |fname| then fname[i] else 0);
    assert buf[..] == fname + [0];
    var counter := 0;
    fn := fn0;
    var n := |fname| - 1;
    while n >= 0
      invariant -1 <= n < |fname| && buf.Length == |fname| + 1
      invariant Scan(buf[..], n + 1, counter, fn) == Scan(fname + [0], |fname|, 0, fn0)
    {
      var c := buf[n];
      ghost var before := buf[..];
      if c == DOT || c == CLOSE || c == OPEN || c == COLON || c == UNDERSCORE || c == SLASH {
        if counter != Rank(c) {
          break;
        }
        buf[n] := 0;
        assert buf[..] == before[n := 0];
        fn := Field(c, CString(buf[..], n + 1), fn);
        counter := counter + 1;
        if c == SLASH {
          break;
        }
      } else if n == 0 {
        if counter != 5 {
          break;
        }
        fn := fn.(start := Wrap(ReadDec(CString(buf[..], 0), 0)));
        counter := counter + 1;
        break;
      }
      n := n - 1;
    }
    ok := counter == 6;
  }
}
