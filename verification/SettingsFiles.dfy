/** The files of a setting one by one, and the states the disk goes through while they are written, copied, checked and
    repaired. */
module SettingsFiles {
  import opened Bytes
  import opened SettingsDisk
  import opened SettingsRepair
  import opened SettingsLoad
  import opened SettingsCrash

  datatype File = DataFile(r: nat) | CrcFile(r: nat)

  predicate ValidFile(f: File) {
    f.r < 5
  }

  function Read(d: Disk, f: File): Option<Bytes>
    requires ValidFile(f)
  {
    match f
    case DataFile(r) => d[r].data
    case CrcFile(r) => d[r].crc
  }

  function With(d: Disk, f: File, x: Option<Bytes>): Disk
    requires ValidFile(f)
  {
    match f
    case DataFile(r) => d[r := d[r].(data := x)]
    case CrcFile(r) => d[r := d[r].(crc := x)]
  }

  /** The states the disk goes through while one file is written: empty, partly written, done. */
  function WriteTrace(d: Disk, f: File, a: Attempt): seq<Disk>
    requires ValidFile(f)
  {
    if !a.opens then []
    else
      [With(d, f, Some([]))]
      + seq(|a.during|, k requires 0 <= k < |a.during| => With(d, f, Some(a.during[k])))
      + [With(d, f, Some(a.lands))]
  }

  lemma WithTwice(d: Disk, f: File, x: Option<Bytes>, y: Option<Bytes>)
    requires ValidFile(f)
    ensures With(With(d, f, x), f, y) == With(d, f, y)
  {
  }

  lemma WithOver(d0: Disk, d: Disk, f: File, y: Bytes)
    requires ValidFile(f) && exists x :: d == With(d0, f, Some(x))
    ensures With(d, f, Some(y)) == With(d0, f, Some(y))
  {
    hide With;
    var x :| d == With(d0, f, Some(x));
    WithTwice(d0, f, Some(x), Some(y));
  }

  lemma WithReads(d: Disk, f: File, x: Option<Bytes>)
    requires ValidFile(f)
    ensures Read(With(d, f, x), f) == x
  {
  }

  /** What a file held before an attempt does not show in the states of the attempt. */
  lemma WriteTraceOver(d: Disk, f: File, x: Bytes, a: Attempt)
    requires ValidFile(f)
    ensures WriteTrace(With(d, f, Some(x)), f, a) == WriteTrace(d, f, a)
  {
    hide With;
    WithTwice(d, f, Some(x), Some([]));
    WithTwice(d, f, Some(x), Some(a.lands));
    forall k | 0 <= k < |a.during|
      ensures With(With(d, f, Some(x)), f, Some(a.during[k])) == With(d, f, Some(a.during[k]))
    {
      WithTwice(d, f, Some(x), Some(a.during[k]));
    }
  }

  lemma WriteTraceShows(d: Disk, f: File, a: Attempt, e: Disk)
    requires ValidFile(f) && e in WriteTrace(d, f, a)
    ensures exists x :: Appears(a, x) && e == With(d, f, Some(x))
  {
    hide With;
    var k :| 0 <= k < |WriteTrace(d, f, a)| && WriteTrace(d, f, a)[k] == e;
    var x := if k == 0 then [] else if k <= |a.during| then a.during[k - 1] else a.lands;
    assert Appears(a, x) && e == With(d, f, Some(x));
  }

  // ---------------------------------------------------------------------------------------------
  // The states of a repair

  /** What can be found in a file, between empty and complete, while it is being copied over. */
  type Partial = File -> seq<Bytes>

  /** A copy that runs to its end. */
  function Copying(during: seq<Bytes>, x: Bytes): Attempt {
    Attempt(true, during, x, true)
  }

  function CopyTrace(d: Disk, src: File, dst: File, during: seq<Bytes>): seq<Disk>
    requires ValidFile(src) && ValidFile(dst)
  {
    if Read(d, src).None? then [] else WriteTrace(d, dst, Copying(during, Read(d, src).value))
  }

  /** The removals of the check of one replica: the checksum file goes before the data file. */
  function CheckTrace(d: Disk, r: nat): seq<Disk>
    requires r < 5
  {
    if ZeroChecksum(d[r]) then [d[r := Slot(d[r].data, None)], d[r := Slot(None, None)]]
    else if d[r].data == Some([]) then [d[r := Slot(None, d[r].crc)]]
    else []
  }

  predicate ZeroChecksum(s: Slot) {
    s.crc.Some? && ParseHex(s.crc.value) == 0
  }

  /** The disk after the replicas below n have been checked. */
  function CheckedBelow(d: Disk, n: nat): Disk {
    seq(5, i requires 0 <= i < 5 => if i < n && i < FACT then AfterCheck(d[i]) else d[i])
  }

  function ChecksTrace(d: Disk, n: nat): seq<Disk>
    requires n <= FACT
  {
    if n == 0 then [] else ChecksTrace(d, n - 1) + CheckTrace(CheckedBelow(d, n - 1), n - 1)
  }

  /** The checksum files of the replicas below k are gone. */
  function RemovedBelow(d: Disk, k: nat): Disk {
    seq(5, j requires 0 <= j < 5 => if j < k && j < FACT then d[j].(crc := None) else d[j])
  }

  function RemovalTrace(d: Disk, n: nat): seq<Disk> {
    seq(n, k requires 0 <= k < n => RemovedBelow(d, k + 1))
  }

  /** The data of replica v, if it has any, copied over those of replica i. */
  function DataCopied(d: Disk, v: nat, i: nat): Disk
    requires v < 5 && i < 5
  {
    if d[v].data.Some? then With(d, DataFile(i), d[v].data) else d
  }

  /** One turn of the restoring loop: replica v over replica i. */
  function RestoreStep(d: Disk, v: nat, i: nat): Disk
    requires v < FACT && i < FACT
  {
    var d1 := DataCopied(d, v, i);
    if d1[v].crc.Some? then
      if d1[v].crc.value == [] then With(d1, CrcFile(v), None) else With(d1, CrcFile(i), d1[v].crc)
    else RemovedBelow(d1, FACT)
  }

  function TurnTrace(d: Disk, v: nat, i: nat, torn: Partial): seq<Disk>
    requires v < FACT && i < FACT
  {
    var d1 := DataCopied(d, v, i);
    CopyTrace(d, DataFile(v), DataFile(i), torn(DataFile(i)))
    + if d1[v].crc.Some? then
        if d1[v].crc.value == [] then [With(d1, CrcFile(v), None)]
        else CopyTrace(d1, CrcFile(v), CrcFile(i), torn(CrcFile(i)))
      else RemovalTrace(d1, FACT)
  }

  /** The turns of the replicas below n. */
  function TurnsTrace(d: Disk, v: nat, n: nat, torn: Partial): seq<Disk>
    requires v < FACT && n <= FACT
  {
    if n == 0 then []
    else
      TurnsTrace(d, v, n - 1, torn)
      + if Passes(d[n - 1]) then [] else TurnTrace(Restored(d, v, n - 1), v, n - 1, torn)
  }

  /** The disk after the factory files have been copied over the replicas below n. */
  function FactoryBelow(d: Disk, n: nat): Disk {
    seq(5, i requires 0 <= i < 5 =>
      if i < n && i < FACT then WithFactory(AfterCheck(d[i]), d[FACT]) else Checked(d)[i])
  }

  /** Both files of replica r copied over those of replica i. */
  function CopyBothTrace(d: Disk, r: nat, i: nat, torn: Partial): seq<Disk>
    requires r < 5 && i < 5
  {
    CopyTrace(d, DataFile(r), DataFile(i), torn(DataFile(i)))
    + CopyTrace(DataCopied(d, r, i), CrcFile(r), CrcFile(i), torn(CrcFile(i)))
  }

  function FactoryTrace(d: Disk, n: nat, torn: Partial): seq<Disk>
    requires n <= FACT
  {
    if n == 0 then [] else FactoryTrace(d, n - 1, torn) + CopyBothTrace(FactoryBelow(d, n - 1), FACT, n - 1, torn)
  }

  /** All states of a repair, in order. */
  function RepairTrace(d: Disk, torn: Partial): seq<Disk> {
    ChecksTrace(d, FACT)
    + match FirstPassing(d)
      case Some(v) => TurnsTrace(d, v, FACT, torn)
      case None => FactoryTrace(d, FACT, torn) + CheckTrace(FactoryRestored(d), SYS)
  }

  // ---------------------------------------------------------------------------------------------
  // The states of a load with the lazy repair

  function RemoveBothTrace(d: Disk, r: nat): seq<Disk>
    requires r < 5
  {
    [d[r := Slot(None, d[r].crc)], d[r := GONE]]
  }

  /** The factory copy over all four replicas, which are gone. */
  function LazyFactoryTrace(d: Disk, torn: Partial): seq<Disk> {
    var f := d[FACT];
    var d1 := d[SYS := f];
    var d2 := d1[RSV := f];
    var d3 := d2[EXT := f];
    var d4 := d3[EXT_RSV := f];
    CopyBothTrace(d, FACT, SYS, torn) + CopyBothTrace(d1, FACT, RSV, torn) + CopyBothTrace(d2, FACT, EXT, torn)
    + CopyBothTrace(d3, FACT, EXT_RSV, torn) + CheckTrace(d4, SYS)
    + if Passes(f) then [] else RemoveBothTrace(d4[SYS := AfterCheck(f)], SYS)
  }

  /** For a primary that is gone: the extended replica, the reserve and the extended reserve are tried in turn. */
  function PrimaryTrace(d: Disk, torn: Partial): seq<Disk> {
    var d1 := d[EXT := AfterCheck(d[EXT])];
    CheckTrace(d, EXT)
    + if Passes(d[EXT]) then CopyBothTrace(d1, EXT, SYS, torn)
      else RemoveBothTrace(d1, EXT) + FromReserveTrace(d[EXT := GONE], torn)
  }

  function FromReserveTrace(d: Disk, torn: Partial): seq<Disk> {
    var d1 := d[RSV := AfterCheck(d[RSV])];
    CheckTrace(d, RSV)
    + if Passes(d[RSV]) then
        CopyBothTrace(d1, RSV, SYS, torn) + CopyBothTrace(d1[SYS := Over(d1[RSV], d1[SYS])], EXT_RSV, EXT, torn)
      else RemoveBothTrace(d1, RSV) + FromExtReserveTrace(d[RSV := GONE], torn)
  }

  function FromExtReserveTrace(d: Disk, torn: Partial): seq<Disk> {
    var x := AfterCheck(d[EXT_RSV]);
    var d1 := d[EXT_RSV := x];
    var d2 := d1[SYS := Over(x, d1[SYS])];
    var d3 := d2[EXT := Over(x, d2[EXT])];
    CheckTrace(d, EXT_RSV)
    + if Passes(d[EXT_RSV]) then
        CopyBothTrace(d1, EXT_RSV, SYS, torn) + CopyBothTrace(d2, EXT_RSV, EXT, torn)
        + CopyBothTrace(d3, EXT_RSV, RSV, torn)
      else RemoveBothTrace(d1, EXT_RSV) + LazyFactoryTrace(d[EXT_RSV := GONE], torn)
  }

  function LazyTrace(d: Disk, unset: bool, torn: Partial): seq<Disk> {
    var d1 := d[SYS := AfterCheck(d[SYS])];
    if SameFiles(d[SYS].data, d[RSV].data, unset) then []
    else
      CheckTrace(d, SYS)
      + if Passes(d[SYS]) then CopyBothTrace(d1, SYS, RSV, torn)
        else RemoveBothTrace(d1, SYS) + PrimaryTrace(d[SYS := GONE], torn)
  }

  /** All states of a load, in order. */
  function LoadTrace(d: Disk, unset: bool, torn: Partial): seq<Disk> {
    var d1 := d[SYS := AfterCheck(d[SYS])];
    CheckTrace(d, SYS)
    + if Passes(d[SYS]) then [] else LazyTrace(d1, unset, torn) + CheckTrace(LazyDisk(d1, unset), SYS)
  }
}
