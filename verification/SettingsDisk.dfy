/** The files of one setting and the validity check on them (settings_adm.cxx). */
module SettingsDisk {
  import opened Bytes
  import opened Crc
  import opened Numerals

  /** eErrorTp */
  datatype Error = NO_ERROR | ERROR

  /** One replica: a data file (.set) and an optional checksum file (.crc). */
  datatype Slot = Slot(data: Option<Bytes>, crc: Option<Bytes>)

  // the four replicas in the order in which the repair looks at them, and the factory copy
  const SYS: nat := 0
  const EXT: nat := 1
  const RSV: nat := 2
  const EXT_RSV: nat := 3
  const FACT: nat := 4

  type Disk = d: seq<Slot> | |d| == 5 witness seq(5, _ => Slot(None, None))

  function DiskOf(sys: Slot, ext: Slot, rsv: Slot, extRsv: Slot, fact: Slot): Disk {
    [sys, ext, rsv, extRsv, fact]
  }

  // ---------------------------------------------------------------------------------------------
  // The text of a checksum file

  /** The checksum of a file's contents as a number. */
  function Sum(data: Bytes): (n: nat)
    ensures n < 0x1_0000_0000
  {
    Crc32(data) as nat
  }

  /** What the stream extraction of a hexadecimal u32 yields: 0 when there is no digit, the maximum on overflow. */
  function ParseHex(s: Bytes): (n: nat)
    ensures n < 0x1_0000_0000
  {
    if s != [] && IsSpace(s[0]) then ParseHex(s[1..])
    else if ReadDigits(s, 0) < 0x1_0000_0000 then ReadDigits(s, 0) else 0xFFFF_FFFF
  }

  /** A checksum survives being written to its file and read back. */
  lemma ParsePrinted(n: nat)
    requires n < 0x1_0000_0000
    ensures ParseHex(PrintHex(n, 8)) == n
  {
    hide DigitValue, IsSpace, PrintHex;
    assert Pow16(4) == 0x1_0000 && Pow16(8) == 0x1_0000_0000;
    PrintReadsBack(n, 8);
  }

  /** A replica with its right checksum. */
  function Whole(x: Bytes): Slot {
    Slot(Some(x), Some(PrintHex(Sum(x), 8)))
  }

  /** Contents beside the checksum 1. */
  function Corrupt(x: Bytes): Slot {
    Slot(Some(x), Some(PrintHex(1, 8)))
  }

  lemma SumOfEmpty()
    ensures Sum([]) == 0 && ParseHex([]) == 0
  {
  }

  // ---------------------------------------------------------------------------------------------
  // The check of one replica

  /** The check reports the replica as valid. */
  predicate Passes(s: Slot) {
    s.data.Some? && (s.crc.Some? ==> ParseHex(s.crc.value) != 0 && ParseHex(s.crc.value) == Sum(s.data.value))
  }

  /** Valid, with something in it. */
  predicate Healthy(s: Slot) {
    Passes(s) && s.data.value != []
  }

  /** An empty data file without a checksum file: reported as valid, though the check deletes it. */
  predicate EmptyUnprotected(s: Slot) {
    s == Slot(Some([]), None)
  }

  /** What the check leaves: corrupt checksums take the data with them, empty data files go. */
  function AfterCheck(s: Slot): Slot {
    if s.crc.Some? && ParseHex(s.crc.value) == 0 then Slot(None, None)
    else if s.data == Some([]) then Slot(None, s.crc)
    else s
  }

  /** A valid replica is untouched by the check unless it is the empty one, and an invalid one stays invalid. */
  lemma CheckKeeps(s: Slot)
    ensures Passes(s) <==> Healthy(s) || EmptyUnprotected(s)
    ensures Healthy(s) ==> AfterCheck(s) == s
    ensures !Healthy(s) ==> !Passes(AfterCheck(s))
    ensures AfterCheck(AfterCheck(s)) == AfterCheck(s)
    ensures AfterCheck(s).crc.Some? ==> AfterCheck(s).crc.value != [] && ParseHex(AfterCheck(s).crc.value) != 0
  {
    hide ParseHex, Sum;
    SumOfEmpty();
  }
}
