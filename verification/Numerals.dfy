/** Numbers in text: what printf writes and how far a reader gets. */
module Numerals {
  import opened Bytes

  function HexDigit(n: nat): Byte
    requires n < 16
  {
    if n < 10 then (48 + n) as Byte else (87 + n) as Byte
  }

  /** The k low hexadecimal digits of n: "%08x" for k = 8. */
  function PrintHex(n: nat, k: nat): (r: Bytes)
    ensures |r| == k
    decreases k
  {
    if k == 0 then [] else PrintHex(n / 16, k - 1) + [HexDigit(n % 16)]
  }

  function DigitValue(c: Byte): Option<nat> {
    if 48 <= c <= 57 then Some(c as nat - 48)
    else if 97 <= c <= 102 then Some(c as nat - 87)
    else if 65 <= c <= 70 then Some(c as nat - 55)
    else None
  }

  predicate IsSpace(c: Byte) {
    c == 32 || 9 <= c <= 13
  }

  /** Reads hexadecimal digits up to the first other character. */
  function ReadDigits(s: Bytes, acc: nat): nat {
    if s == [] || DigitValue(s[0]).None? then acc else ReadDigits(s[1..], acc * 16 + DigitValue(s[0]).value)
  }

  function Pow16(k: nat): nat {
    if k == 0 then 1 else 16 * Pow16(k - 1)
  }

  lemma DigitReadsBack(n: nat)
    requires n < 16
    ensures DigitValue(HexDigit(n)) == Some(n) && !IsSpace(HexDigit(n))
  {
    match n
    case 0 => case 1 => case 2 => case 3 => case 4 => case 5 => case 6 => case 7 =>
    case 8 => case 9 => case 10 => case 11 => case 12 => case 13 => case 14 => case _ =>
  }

  lemma {:induction false} ReadDigitsSnoc(s: Bytes, c: Byte, acc: nat)
    requires forall i :: 0 <= i < |s| ==> DigitValue(s[i]).Some?
    requires DigitValue(c).Some?
    ensures ReadDigits(s + [c], acc) == ReadDigits(s, acc) * 16 + DigitValue(c).value
    decreases |s|
  {
    hide DigitValue;
    if s == [] {
      assert (s + [c])[1..] == [];
    } else {
      assert (s + [c])[1..] == s[1..] + [c];
      ReadDigitsSnoc(s[1..], c, acc * 16 + DigitValue(s[0]).value);
    }
  }

  lemma {:induction false} PrintReadsBack(n: nat, k: nat)
    requires n < Pow16(k)
    ensures ReadDigits(PrintHex(n, k), 0) == n
    ensures forall i :: 0 <= i < k ==> DigitValue(PrintHex(n, k)[i]).Some? && !IsSpace(PrintHex(n, k)[i])
    decreases k
  {
    hide DigitValue, HexDigit, IsSpace;
    if k > 0 {
      PrintReadsBack(n / 16, k - 1);
      DigitReadsBack(n % 16);
      ReadDigitsSnoc(PrintHex(n / 16, k - 1), HexDigit(n % 16), 0);
    }
  }

  lemma {:induction false} HexIsSmall(n: nat, k: nat)
    ensures forall i :: 0 <= i < k ==> 48 <= PrintHex(n, k)[i] <= 57 || 97 <= PrintHex(n, k)[i] <= 102
    decreases k
  {
    hide HexDigit;
    if k > 0 {
      HexIsSmall(n / 16, k - 1);
      SmallDigit(n % 16);
    }
  }

  lemma SmallDigit(n: nat)
    requires n < 16
    ensures 48 <= HexDigit(n) <= 57 || 97 <= HexDigit(n) <= 102
  {
    match n
    case 0 => case 1 => case 2 => case 3 => case 4 => case 5 => case 6 => case 7 =>
    case 8 => case 9 => case 10 => case 11 => case 12 => case 13 => case 14 => case _ =>
  }

  // ---------------------------------------------------------------------------------------------
  // Decimal

  function DecDigit(n: nat): Byte
    requires n < 10
  {
    (48 + n) as Byte
  }

  /** "%u" */
  function PrintDec(n: nat): (r: Bytes)
    ensures r != []
  {
    if n < 10 then [DecDigit(n)] else PrintDec(n / 10) + [DecDigit(n % 10)]
  }

  predicate IsDec(c: Byte) {
    48 <= c <= 57
  }

  /** Reads decimal digits up to the first other character. */
  function ReadDec(s: Bytes, acc: nat): nat {
    if s == [] || !IsDec(s[0]) then acc else ReadDec(s[1..], acc * 10 + (s[0] as nat - 48))
  }

  lemma DecDigitIs(n: nat)
    requires n < 10
    ensures IsDec(DecDigit(n)) && DecDigit(n) as nat == 48 + n
  {
    match n
    case 0 => case 1 => case 2 => case 3 => case 4 => case 5 => case 6 => case 7 => case 8 => case _ =>
  }

  lemma {:induction false} ReadDecSnoc(s: Bytes, c: Byte, acc: nat)
    requires IsDec(c) && forall i :: 0 <= i < |s| ==> IsDec(s[i])
    ensures ReadDec(s + [c], acc) == ReadDec(s, acc) * 10 + (c as nat - 48)
    decreases |s|
  {
    if s == [] {
      assert (s + [c])[1..] == [];
    } else {
      assert (s + [c])[1..] == s[1..] + [c];
      ReadDecSnoc(s[1..], c, acc * 10 + (s[0] as nat - 48));
    }
  }

  lemma {:induction false} DecReadsBack(n: nat)
    ensures ReadDec(PrintDec(n), 0) == n
    ensures forall i :: 0 <= i < |PrintDec(n)| ==> IsDec(PrintDec(n)[i])
  {
    hide IsDec, DecDigit;
    DecDigitIs(n % 10);
    if n < 10 {
      ReadDecSnoc([], DecDigit(n), 0);
      assert [] + [DecDigit(n)] == [DecDigit(n)];
    } else {
      DecReadsBack(n / 10);
      ReadDecSnoc(PrintDec(n / 10), DecDigit(n % 10), 0);
    }
  }
}
