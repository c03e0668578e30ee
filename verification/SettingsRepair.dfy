/** What the two repairs of a setting leave on the disk, file by file, and what that is worth. */
module SettingsRepair {
  import opened Bytes
  import opened Numerals
  import opened SettingsDisk

  // ---------------------------------------------------------------------------------------------
  // SyncGsetOneSetting4x4

  /** The disk after all four replicas have been checked. */
  function Checked(d: Disk): Disk {
    seq(5, i requires 0 <= i < 5 => if i < FACT then AfterCheck(d[i]) else d[i])
  }

  function FirstPassing(d: Disk): (v: Option<nat>)
    ensures v.Some? ==> v.value < FACT && Passes(d[v.value]) && forall r :: 0 <= r < v.value ==> !Passes(d[r])
    ensures v.None? ==> forall r :: 0 <= r < FACT ==> !Passes(d[r])
  {
    if Passes(d[SYS]) then Some(SYS)
    else if Passes(d[EXT]) then Some(EXT)
    else if Passes(d[RSV]) then Some(RSV)
    else if Passes(d[EXT_RSV]) then Some(EXT_RSV)
    else None
  }

  predicate FailsBelow(d: Disk, n: nat)
    requires n <= FACT
  {
    exists r :: 0 <= r < n && !Passes(d[r])
  }

  /** One slot after the failing replicas below n have been overwritten with replica v.  When v has no checksum
      file, the first overwriting removes the checksum files of all four. */
  function RestoredSlot(d: Disk, v: nat, n: nat, i: nat): Slot
    requires v < FACT && n <= FACT && i < FACT
  {
    var c, x := AfterCheck(d[i]), AfterCheck(d[v]);
    var overwritten := i < n && !Passes(d[i]);
    Slot(if overwritten && x.data.Some? then x.data else c.data,
         if x.crc.None? && FailsBelow(d, n) then None else if x.crc.Some? && overwritten then x.crc else c.crc)
  }

  function Restored(d: Disk, v: nat, n: nat): Disk
    requires v < FACT && n <= FACT
  {
    seq(5, i requires 0 <= i < 5 => if i < FACT then RestoredSlot(d, v, n, i) else d[i])
  }

  /** The factory files over a slot; a file the factory lacks leaves the old one in place. */
  function WithFactory(c: Slot, fact: Slot): Slot {
    Slot(if fact.data.Some? then fact.data else c.data, if fact.crc.Some? then fact.crc else c.crc)
  }

  function FactoryRestored(d: Disk): Disk {
    seq(5, i requires 0 <= i < 5 => if i < FACT then WithFactory(AfterCheck(d[i]), d[FACT]) else d[i])
  }

  /** The disk after the repair. */
  function Repaired(d: Disk): Disk {
    var v := FirstPassing(d);
    if v.Some? then Restored(d, v.value, FACT)
    else
      var f := FactoryRestored(d);
      f[SYS := AfterCheck(f[SYS])]
  }

  function RepairError(d: Disk): Error {
    if FirstPassing(d).Some? || Passes(FactoryRestored(d)[SYS]) then NO_ERROR else ERROR
  }

  ghost predicate AllHealthy(d: Disk) {
    forall r :: 0 <= r < FACT ==> Healthy(d[r])
  }

  /** As soon as one replica is reported valid, the repair makes all four healthy exactly when none of them is an
      empty data file without a checksum file. */
  lemma RepairHeals(d: Disk)
    requires FirstPassing(d).Some?
    ensures AllHealthy(Repaired(d)) <==> forall r :: 0 <= r < FACT ==> !EmptyUnprotected(d[r])
  {
    hide AfterCheck, Passes, Healthy, EmptyUnprotected;
    var v := FirstPassing(d).value;
    forall r | 0 <= r < FACT
      ensures EmptyUnprotected(d[r]) ==> !Healthy(Repaired(d)[r])
      ensures !EmptyUnprotected(d[v]) ==> (Healthy(Repaired(d)[r]) <==> !EmptyUnprotected(d[r]))
    {
      RestoredIsHealthy(d, v, r);
    }
  }

  lemma RestoredIsHealthy(d: Disk, v: nat, r: nat)
    requires v < FACT && r < FACT && Passes(d[v])
    ensures EmptyUnprotected(d[r]) ==> !Healthy(RestoredSlot(d, v, FACT, r))
    ensures !EmptyUnprotected(d[v]) ==> (Healthy(RestoredSlot(d, v, FACT, r)) <==> !EmptyUnprotected(d[r]))
  {
    hide ParseHex, Sum;
    SumOfEmpty();
  }

  /** With a healthy first replica v: failing replicas get the bytes of v, data of the others is unchanged, and the
      factory files are not touched. */
  lemma RepairCopiesFirst(d: Disk, r: nat)
    requires FirstPassing(d).Some? && Healthy(d[FirstPassing(d).value]) && r < FACT
    ensures var v := FirstPassing(d).value;
            Repaired(d)[r].data == if Healthy(d[r]) then d[r].data
                                   else if EmptyUnprotected(d[r]) then None else d[v].data
    ensures Repaired(d)[FACT] == d[FACT]
  {
    hide ParseHex, Sum;
    SumOfEmpty();
  }

  /** Repairing a healthy disk changes nothing. */
  lemma HealthyDiskKept(d: Disk)
    requires AllHealthy(d)
    ensures Repaired(d) == d && RepairError(d) == NO_ERROR
  {
    hide AfterCheck, Passes, Healthy;
    forall r | 0 <= r < FACT
      ensures Passes(d[r]) && AfterCheck(d[r]) == d[r]
    {
      CheckKeeps(d[r]);
    }
    assert FirstPassing(d) == Some(SYS);
    assert !FailsBelow(d, FACT);
    forall i | 0 <= i < 5
      ensures Repaired(d)[i] == d[i]
    {
    }
  }

  /** A disk that the repair leaves as it is: a healthy one, or one on which neither a replica nor the factory copy
      passes and the factory files are in place already. */
  lemma RepairFixedIff(e: Disk)
    ensures Repaired(e) == e <==>
              AllHealthy(e)
              || (FirstPassing(e).None?
                  && forall r :: 0 <= r < FACT ==>
                       e[r] == (if r == SYS then AfterCheck(FactoryRestored(e)[SYS]) else FactoryRestored(e)[r]))
  {
    hide AfterCheck, Passes, Healthy, EmptyUnprotected, WithFactory;
    if AllHealthy(e) {
      HealthyDiskKept(e);
    } else if FirstPassing(e).Some? {
      RepairHeals(e);
      if r :| 0 <= r < FACT && EmptyUnprotected(e[r]) {
        EmptyUnprotectedGoes(e, FirstPassing(e).value, r);
      }
    } else {
      assert Repaired(e)[FACT] == e[FACT];
      forall r | 0 <= r < FACT
        ensures Repaired(e)[r] == if r == SYS then AfterCheck(FactoryRestored(e)[SYS]) else FactoryRestored(e)[r]
      {
      }
      if forall r :: 0 <= r < FACT ==> Repaired(e)[r] == e[r] {
        assert Repaired(e) == e;
      }
    }
  }

  lemma EmptyUnprotectedGoes(d: Disk, v: nat, r: nat)
    requires v < FACT && r < FACT && Passes(d[v]) && EmptyUnprotected(d[r])
    ensures RestoredSlot(d, v, FACT, r) != d[r]
  {
  }

  lemma FixedAfterCopyIff(d: Disk)
    requires FirstPassing(d).Some?
    ensures Repaired(Repaired(d)) == Repaired(d) <==>
              || (forall r :: 0 <= r < FACT ==> !EmptyUnprotected(d[r]))
              || (d[FACT] == Slot(None, None) && forall r :: 0 <= r < FACT ==> AfterCheck(d[r]).data.None?)
  {
    hide ParseHex, Sum;
    SumOfEmpty();
    var e, v := Repaired(d), FirstPassing(d).value;
    RepairFixedIff(e);
    RepairHeals(d);
    if r :| 0 <= r < FACT && EmptyUnprotected(d[r]) {
      if q :| 0 <= q < FACT && AfterCheck(d[q]).data.Some? {
        assert Passes(e[q]);
      } else {
        assert forall q :: 0 <= q < FACT ==> e[q] == Slot(None, None);
      }
    }
  }

  lemma FixedAfterFactoryIff(d: Disk)
    requires FirstPassing(d).None?
    ensures var f := FactoryRestored(d);
            Repaired(Repaired(d)) == Repaired(d) <==>
              || AllHealthy(f)
              || ((forall r :: 0 <= r < FACT ==> !Passes(if r == SYS then AfterCheck(f[r]) else f[r]))
                  && !(d[FACT].data.None? && d[FACT].crc.Some? && ParseHex(d[FACT].crc.value) == 0
                       && exists r :: EXT <= r < FACT && AfterCheck(d[r]).data.Some?))
  {
    hide AfterCheck, Passes, WithFactory;
    var e, f := Repaired(d), FactoryRestored(d);
    RepairFixedIff(e);
    forall r | 0 <= r < FACT
      ensures Healthy(e[r]) <==> Healthy(f[r])
      ensures FirstPassing(e).None? ==>
                ((e[r] == if r == SYS then AfterCheck(FactoryRestored(e)[SYS]) else FactoryRestored(e)[r])
                 <==> r == SYS || !(d[FACT].data.None? && d[FACT].crc.Some? && ParseHex(d[FACT].crc.value) == 0
                                    && AfterCheck(d[r]).data.Some?))
    {
      CheckKeeps(f[r]);
      FactorySlotFixed(d[r], d[FACT]);
    }
  }

  lemma FactorySlotFixed(s: Slot, fact: Slot)
    requires !Passes(s)
    ensures var g := WithFactory(AfterCheck(s), fact);
            && (!Passes(g) ==>
                  (WithFactory(AfterCheck(g), fact) == g <==>
                     !(fact.data.None? && fact.crc.Some? && ParseHex(fact.crc.value) == 0 && AfterCheck(s).data.Some?)))
            && (!Passes(AfterCheck(g)) ==>
                  AfterCheck(WithFactory(AfterCheck(AfterCheck(g)), fact)) == AfterCheck(g))
  {
    hide ParseHex, Sum;
    SumOfEmpty();
  }

  /** Exactly when a second repair changes nothing.  After a repair from a valid replica: when no replica was an empty
      file without checksum, or else no replica is left with data and there is no factory copy either.  After a repair
      from the factory: when all replicas are healthy, or when none of them passes and no old data stands beside
      a factory checksum that reads as zero and brings no data of its own. */
  lemma RepairIdempotentIff(d: Disk)
    ensures Repaired(Repaired(d)) == Repaired(d) <==>
              if FirstPassing(d).Some? then
                || (forall r :: 0 <= r < FACT ==> !EmptyUnprotected(d[r]))
                || (d[FACT] == Slot(None, None) && forall r :: 0 <= r < FACT ==> AfterCheck(d[r]).data.None?)
              else
                var f := FactoryRestored(d);
                || AllHealthy(f)
                || ((forall r :: 0 <= r < FACT ==> !Passes(if r == SYS then AfterCheck(f[r]) else f[r]))
                    && !(d[FACT].data.None? && d[FACT].crc.Some? && ParseHex(d[FACT].crc.value) == 0
                         && exists r :: EXT <= r < FACT && AfterCheck(d[r]).data.Some?))
  {
    hide *;
    if FirstPassing(d).Some? {
      FixedAfterCopyIff(d);
    } else {
      FixedAfterFactoryIff(d);
    }
  }

  /** From an existing factory copy the repair succeeds exactly when the factory data matches the factory checksum or,
      when the factory has none, whatever checksum of the primary survived the check. */
  lemma FactoryRepair(d: Disk)
    requires FirstPassing(d).None? && d[FACT].data.Some?
    ensures RepairError(d) == NO_ERROR <==>
              Passes(Slot(d[FACT].data, if d[FACT].crc.Some? then d[FACT].crc else AfterCheck(d[SYS]).crc))
    ensures RepairError(d) == NO_ERROR && d[FACT].data != Some([]) ==> Repaired(d)[SYS].data == d[FACT].data
  {
    hide ParseHex, Sum;
    SumOfEmpty();
  }

  /** A healthy factory copy with its checksum file makes all four replicas healthy copies of itself. */
  lemma FactoryHeals(d: Disk)
    requires FirstPassing(d).None? && Healthy(d[FACT]) && d[FACT].crc.Some?
    ensures RepairError(d) == NO_ERROR && AllHealthy(Repaired(d))
    ensures forall r :: 0 <= r < FACT ==> Repaired(d)[r] == d[FACT]
  {
    hide ParseHex, Sum;
    SumOfEmpty();
  }

  /** From an existing factory copy: all four replicas are healthy afterwards exactly when there is factory data and it
      matches the factory checksum or, when the factory has none, every checksum file that survived the check; an old
      one that does not match stays beside the factory data although the repair reports success. */
  lemma FactoryHealsIff(d: Disk)
    requires FirstPassing(d).None? && d[FACT].data.Some?
    ensures AllHealthy(Repaired(d)) <==>
              d[FACT].data != Some([])
              && forall r :: 0 <= r < FACT ==>
                   Passes(Slot(d[FACT].data, if d[FACT].crc.Some? then d[FACT].crc else AfterCheck(d[r]).crc))
  {
    hide ParseHex, Sum;
    SumOfEmpty();
    forall r | 0 <= r < FACT
      ensures Healthy(Repaired(d)[r]) <==>
                d[FACT].data != Some([])
                && Passes(Slot(d[FACT].data, if d[FACT].crc.Some? then d[FACT].crc else AfterCheck(d[r]).crc))
    {
    }
  }

  /** The repair lets unverified contents pass exactly when the first replica reported valid is an empty one without
      checksum, which takes the checksums of all replicas away. */
  lemma LaundersIff(d: Disk, r: nat)
    requires r < FACT && !Passes(d[r]) && FirstPassing(d).Some? && AfterCheck(d[r]).data.Some?
    ensures var v := FirstPassing(d).value;
            (Passes(Repaired(d)[r]) && Repaired(d)[r].data == d[r].data && d[r].data != d[v].data)
              <==> EmptyUnprotected(d[v])
  {
    hide ParseHex, Sum;
    SumOfEmpty();
  }

  /** One such disk: a corrupt primary, detected as such, passes after one repair because the reserve was empty. */
  lemma EmptyReserveLaundersPrimary(bad: Bytes)
    requires bad != [] && Sum(bad) != 1
    ensures var corrupt := Corrupt(bad);
            var d := DiskOf(corrupt, corrupt, Slot(Some([]), None), corrupt, Slot(None, None));
            !Passes(corrupt) && RepairError(d) == NO_ERROR && Repaired(d)[SYS] == Slot(Some(bad), None)
  {
    hide ParseHex, Sum, PrintHex;
    ParsePrinted(1);
    SumOfEmpty();
    var corrupt := Corrupt(bad);
    var d := DiskOf(corrupt, corrupt, Slot(Some([]), None), corrupt, Slot(None, None));
    assert FirstPassing(d) == Some(RSV);
    LaundersIff(d, SYS);
    assert d[SYS] == corrupt && FailsBelow(d, FACT);
  }

  /** Another: an empty primary takes the checksums of the others away, and a second repair spreads their corrupt
      data. */
  lemma EmptyPrimaryLaundersCorruption(bad: Bytes)
    requires bad != [] && Sum(bad) != 1
    ensures var corrupt := Corrupt(bad);
            var d := DiskOf(Slot(Some([]), None), corrupt, corrupt, corrupt, Slot(None, None));
            && !Passes(corrupt)
            && Repaired(Repaired(d))[SYS].data == Some(bad)
  {
    hide ParseHex, Sum, PrintHex;
    ParsePrinted(1);
    SumOfEmpty();
    var corrupt := Corrupt(bad);
    var d := DiskOf(Slot(Some([]), None), corrupt, corrupt, corrupt, Slot(None, None));
    assert !Passes(d[1]) && FailsBelow(d, FACT);
    assert FirstPassing(d) == Some(SYS);
    var e := Repaired(d);
    assert e[SYS] == Slot(None, None) && e[EXT] == Slot(Some(bad), None);
    assert !Passes(e[SYS]) && Passes(e[EXT]) && FirstPassing(e) == Some(EXT);
  }
}
