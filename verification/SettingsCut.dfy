/** Power cuts during the repair itself, at each state it goes through: what the next repair makes of the disk. */
module SettingsCut {
  import opened Bytes
  import opened Numerals
  import opened SettingsDisk
  import opened SettingsRepair
  import opened SettingsCrash
  import opened SettingsFiles

  /** Where a repair is cut. */
  datatype Cut =
    | Checks(n: nat)                               // after the checks of the replicas below n
    | HalfChecked(i: nat)                          // the check of replica i has removed the checksum file only
    | DataCut(i: nat, x: Bytes)                    // while the data of replica i are copied
    | ChecksumCut(i: nat, c: Option<Bytes>)        // while its checksum file is copied
    | RemovalCut(i: nat, k: nat)                   // while all checksum files are removed, for want of one to copy
    | FactoryDataCut(i: nat, x: Bytes)             // the same with the factory copy
    | FactoryChecksumCut(i: nat, c: Option<Bytes>)
    | FactoryHalfChecked                           // the last check has removed the checksum file only
    | Ended

  /** The cut can happen on this disk. */
  predicate Apt(d: Disk, c: Cut) {
    var v := FirstPassing(d);
    match c
    case Checks(n) => n <= FACT
    case HalfChecked(i) => i < FACT && ZeroChecksum(d[i])
    case DataCut(i, _) => v.Some? && i < FACT && !Passes(d[i])
    case ChecksumCut(i, _) => v.Some? && i < FACT && !Passes(d[i]) && d[v.value].crc.Some?
    case RemovalCut(i, k) => v.Some? && i < FACT && !Passes(d[i]) && d[v.value].crc.None? && k <= FACT
    case FactoryDataCut(i, _) => v.None? && i < FACT && d[FACT].data.Some?
    case FactoryChecksumCut(i, _) => v.None? && i < FACT && d[FACT].crc.Some?
    case FactoryHalfChecked => v.None? && ZeroChecksum(FactoryRestored(d)[SYS])
    case Ended => true
  }

  /** What is found in the file that is being copied has been put there. */
  predicate Reached(d: Disk, torn: Partial, c: Cut)
    requires Apt(d, c)
  {
    match c
    case DataCut(i, x) =>
      var y := AfterCheck(d[FirstPassing(d).value]).data;
      y.Some? && Appears(Copying(torn(DataFile(i)), y.value), x)
    case ChecksumCut(i, x) =>
      x.Some? && Appears(Copying(torn(CrcFile(i)), d[FirstPassing(d).value].crc.value), x.value)
    case FactoryDataCut(i, x) => Appears(Copying(torn(DataFile(i)), d[FACT].data.value), x)
    case FactoryChecksumCut(i, x) => x.Some? && Appears(Copying(torn(CrcFile(i)), d[FACT].crc.value), x.value)
    case _ => true
  }

  /** The disk found after the cut. */
  function CutDisk(d: Disk, c: Cut): Disk
    requires Apt(d, c)
  {
    match c
    case Checks(n) => CheckedBelow(d, n)
    case HalfChecked(i) => With(CheckedBelow(d, i), CrcFile(i), None)
    case DataCut(i, x) => With(Restored(d, FirstPassing(d).value, i), DataFile(i), Some(x))
    case ChecksumCut(i, x) =>
      var v := FirstPassing(d).value;
      With(DataCopied(Restored(d, v, i), v, i), CrcFile(i), x)
    case RemovalCut(i, k) =>
      var v := FirstPassing(d).value;
      RemovedBelow(DataCopied(Restored(d, v, i), v, i), k)
    case FactoryDataCut(i, x) => With(FactoryBelow(d, i), DataFile(i), Some(x))
    case FactoryChecksumCut(i, x) => With(DataCopied(FactoryBelow(d, i), FACT, i), CrcFile(i), x)
    case FactoryHalfChecked => With(FactoryRestored(d), CrcFile(SYS), None)
    case Ended => Repaired(d)
  }

  predicate NoneEmptyUnprotected(d: Disk) {
    forall r :: 0 <= r < FACT ==> !EmptyUnprotected(d[r])
  }

  /** The contents of a replica that was reported valid. */
  predicate Verified(d: Disk, x: Option<Bytes>) {
    exists k :: 0 <= k < FACT && Passes(d[k]) && d[k].data == x
  }

  // ---------------------------------------------------------------------------------------------
  // What single cuts lead to

  /** The check removes a replica whose checksum file reads as zero, the checksum file first.  A cut before the data
      file goes makes the next repair keep its unverified data, unless they are empty; without a valid replica they
      are spread over all four in place of the factory copy. */
  lemma CutCheckTrustsIff(d: Disk, i: nat)
    requires i < FACT && ZeroChecksum(d[i])
    requires NoneEmptyUnprotected(d)
    ensures var e := Repaired(CutDisk(d, HalfChecked(i)));
            && ((d[i].data.Some? && e[i].data == d[i].data) <==> (d[i].data.Some? && d[i].data.value != []))
            && (FirstPassing(d).None? && d[i].data.Some? && d[i].data.value != [] ==>
                  forall r :: 0 <= r < FACT ==> e[r] == Slot(d[i].data, None))
  {
    hide ParseHex, Sum;
    SumOfEmpty();
    var cut := CutDisk(d, HalfChecked(i));
    if FirstPassing(d).Some? {
      var v := FirstPassing(d).value;
      CheckKeeps(d[v]);
      assert Passes(cut[v]) && cut[v].data.value != [];
    }
  }

  /** No checksum file lies beside replica i when its turn comes: none survived the check, or the valid replica has none
      and an earlier turn has removed them all. */
  predicate Unguarded(d: Disk, i: nat)
    requires FirstPassing(d).Some? && i < FACT
  {
    AfterCheck(d[i]).crc.None? || (d[FirstPassing(d).value].crc.None? && FailsBelow(d, i))
  }

  /** A cut while replica i is being overwritten with the data of the first valid one: the next repair takes the torn
      contents for valid exactly when no checksum file lies beside them. */
  lemma CutDataTrustsIff(d: Disk, i: nat, torn: Bytes)
    requires FirstPassing(d).Some? && NoneEmptyUnprotected(d) && i < FACT && !Passes(d[i])
    requires torn != [] && forall r :: 0 <= r < FACT && Passes(d[r]) ==> d[r].data != Some(torn)
    requires AfterCheck(d[i]).crc.Some? ==> ParseHex(AfterCheck(d[i]).crc.value) != Sum(torn)
    ensures Repaired(CutDisk(d, DataCut(i, torn)))[i].data == Some(torn) <==> Unguarded(d, i)
  {
    hide ParseHex, Sum;
    SumOfEmpty();
  }

  /** A cut right after replica i has been opened, which empties it: the next repair makes all replicas healthy unless no
      checksum file lies beside the empty file, which then passes for valid. */
  lemma CutOpenHealsIff(d: Disk, i: nat)
    requires FirstPassing(d).Some? && NoneEmptyUnprotected(d) && i < FACT && !Passes(d[i])
    ensures AllHealthy(Repaired(CutDisk(d, DataCut(i, [])))) <==> !Unguarded(d, i)
  {
    hide ParseHex, Sum;
    SumOfEmpty();
    var cut, v := CutDisk(d, DataCut(i, [])), FirstPassing(d).value;
    CheckKeeps(d[v]);
    assert Passes(cut[v]);
    forall r | 0 <= r < FACT
      ensures EmptyUnprotected(cut[r]) <==> r == i && Unguarded(d, i)
    {
      CheckKeeps(d[r]);
    }
    assert EmptyUnprotected(cut[i]) <==> Unguarded(d, i);
    RepairHeals(cut);
  }

  /** One such cut: the primary was missing and has just been opened.  The next repair reports success and leaves no
      primary, and the one after that makes the corrupt contents of the extended replica the primary's. */
  lemma CutOpenLaundersExtended(bad: Bytes, good: Bytes)
    requires bad != [] && Sum(bad) != 1 && good != [] && Sum(good) != 0 && good != bad
    ensures var d := DiskOf(Slot(None, None), Corrupt(bad), Whole(good), Whole(good), Slot(None, None));
            && !Passes(d[EXT]) && Apt(d, DataCut(SYS, []))
            && var cut := CutDisk(d, DataCut(SYS, []));
            && RepairError(cut) == NO_ERROR && Repaired(cut)[SYS].data == None
            && Repaired(Repaired(cut))[SYS].data == Some(bad)
  {
    hide ParseHex, Sum, PrintHex;
    ParsePrinted(1);
    ParsePrinted(Sum(good));
    SumOfEmpty();
    var d := DiskOf(Slot(None, None), Corrupt(bad), Whole(good), Whole(good), Slot(None, None));
    assert FirstPassing(d) == Some(RSV);
    var cut := CutDisk(d, DataCut(SYS, []));
    assert cut[SYS] == Slot(Some([]), None) && cut[EXT] == Corrupt(bad);
    assert FirstPassing(cut) == Some(SYS) && !Passes(cut[EXT]);
    var e := Repaired(cut);
    assert e[SYS] == Slot(None, None) && e[EXT] == Slot(Some(bad), None);
    assert !Passes(e[SYS]) && FirstPassing(e) == Some(EXT);
  }

  /** A cut after the data of replica i has been written, with anything or nothing in its checksum file: as long as the
      valid replica has a checksum, the next repair makes all replicas healthy, each with verified contents. */
  lemma CutChecksumHeals(d: Disk, i: nat, c: Option<Bytes>)
    requires FirstPassing(d).Some? && NoneEmptyUnprotected(d) && i < FACT && !Passes(d[i])
    requires d[FirstPassing(d).value].crc.Some?
    ensures Safe(d, CutDisk(d, ChecksumCut(i, c)))
  {
    hide ParseHex, Sum, Safe;
    SumOfEmpty();
    var v := FirstPassing(d).value;
    CheckKeeps(d[v]);
    var cut := CutDisk(d, ChecksumCut(i, c));
    assert Passes(cut[v]);
    SafeIff(d, cut);
    forall r | 0 <= r < FACT
      ensures SlotSafe(d, cut[r])
    {
      CheckKeeps(d[r]);
    }
  }

  /** A cut between two turns.  The next repair takes over the unverified data of a replica that has not had its turn
      exactly when the valid replica has no checksum file and an earlier turn has removed those of all others. */
  lemma CutBetweenTrustsIff(d: Disk, i: nat, r: nat)
    requires FirstPassing(d).Some? && NoneEmptyUnprotected(d) && i <= r < FACT && !Passes(d[r])
    requires AfterCheck(d[r]).data.Some? && d[r].data != d[FirstPassing(d).value].data
    ensures (Repaired(Restored(d, FirstPassing(d).value, i))[r].data == d[r].data)
              <==> (d[FirstPassing(d).value].crc.None? && FailsBelow(d, i))
  {
    hide ParseHex, Sum;
    SumOfEmpty();
  }

  /** A cut while the checksum files are being removed one by one, for want of one to copy: unverified data are taken
      over from exactly those replicas whose checksum file is gone already. */
  lemma CutRemovalTrustsIff(d: Disk, i: nat, k: nat, r: nat)
    requires FirstPassing(d).Some? && NoneEmptyUnprotected(d) && i < r < FACT && !Passes(d[i]) && !Passes(d[r])
    requires d[FirstPassing(d).value].crc.None? && !FailsBelow(d, i) && k <= FACT
    requires AfterCheck(d[r]).data.Some? && d[r].data != d[FirstPassing(d).value].data
    ensures Repaired(CutDisk(d, RemovalCut(i, k)))[r].data == d[r].data <==> r < k
  {
    hide ParseHex, Sum;
    SumOfEmpty();
  }

  /** A cut while the factory data are copied over replica i: the next repair takes the torn contents for valid exactly
      when no checksum file of the replica survived the check, and over all four if the replica is the primary. */
  lemma CutFactoryTrustsIff(d: Disk, i: nat, torn: Bytes)
    requires FirstPassing(d).None? && i < FACT && d[FACT].data.Some? && d[FACT].data.value != []
    requires torn != [] && d[FACT].data != Some(torn)
    requires AfterCheck(d[i]).crc.Some? ==> ParseHex(AfterCheck(d[i]).crc.value) != Sum(torn)
    ensures var e := Repaired(CutDisk(d, FactoryDataCut(i, torn)));
            && (e[i].data == Some(torn) <==> AfterCheck(d[i]).crc.None?)
            && (i == SYS && AfterCheck(d[i]).crc.None? ==> forall r :: 0 <= r < FACT ==> e[r].data == Some(torn))
  {
    hide ParseHex, Sum;
    SumOfEmpty();
  }

  /** Factory data whose checksum file reads as zero are removed by the last check, the checksum file first.  A cut
      between the two removals makes the next repair spread them, unverified, over all four replicas. */
  lemma CutFactoryCheckTrusts(d: Disk)
    requires FirstPassing(d).None? && ZeroChecksum(d[FACT]) && d[FACT].data.Some? && d[FACT].data.value != []
    ensures forall r :: 0 <= r < FACT ==>
              Repaired(CutDisk(d, FactoryHalfChecked))[r] == Slot(d[FACT].data, None)
  {
    hide ParseHex, Sum;
    SumOfEmpty();
  }

  // ---------------------------------------------------------------------------------------------
  // Cuts that do no harm

  /** Contents that the repair may leave: those of a valid replica or, for want of one, of the factory copy. */
  predicate Trusted(d: Disk, x: Option<Bytes>) {
    if FirstPassing(d).Some? then Verified(d, x) else x == d[FACT].data
  }

  /** From e the next repair makes all four replicas healthy, each with contents that could be trusted on d. */
  ghost predicate Safe(d: Disk, e: Disk) {
    AllHealthy(Repaired(e)) && forall r :: 0 <= r < FACT ==> Trusted(d, Repaired(e)[r].data)
  }

  predicate SlotSafe(d: Disk, s: Slot) {
    !EmptyUnprotected(s) && (Passes(s) ==> Trusted(d, s.data))
  }

  lemma SafeIff(d: Disk, e: Disk)
    requires FirstPassing(e).Some?
    ensures Safe(d, e) <==> forall r :: 0 <= r < FACT ==> SlotSafe(d, e[r])
  {
    hide AfterCheck, Passes, EmptyUnprotected, Trusted, Repaired;
    RepairHeals(e);
    var v := FirstPassing(e).value;
    CheckKeeps(e[v]);
    if NoneEmptyUnprotected(e) {
      forall r | 0 <= r < FACT
        ensures Repaired(e)[r].data == if Passes(e[r]) then e[r].data else e[v].data
      {
        CheckKeeps(e[r]);
        RepairCopiesFirst(e, r);
      }
    }
  }
}
