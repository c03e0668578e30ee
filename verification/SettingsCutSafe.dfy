/** Every state of a repair is one of the cuts of SettingsCut; exactly when a repair can be cut anywhere without harm. */
module SettingsCutSafe {
  import opened Bytes
  import opened SettingsDisk
  import opened SettingsRepair
  import opened SettingsCrash
  import opened SettingsFiles
  import opened SettingsCut

  // ---------------------------------------------------------------------------------------------
  // The states of a repair are cuts

  ghost predicate Shown(d: Disk, torn: Partial, e: Disk) {
    exists c :: Apt(d, c) && Reached(d, torn, c) && e == CutDisk(d, c)
  }

  lemma CutShown(d: Disk, torn: Partial, c: Cut)
    requires Apt(d, c) && Reached(d, torn, c)
    ensures Shown(d, torn, CutDisk(d, c))
  {
  }

  lemma CheckTraceShown(d: Disk, n: nat, torn: Partial, e: Disk)
    requires n < FACT && e in CheckTrace(CheckedBelow(d, n), n)
    ensures Shown(d, torn, e)
  {
    hide ParseHex, Shown;
    CutShown(d, torn, Checks(n + 1));
    assert CheckedBelow(d, n + 1) == CheckedBelow(d, n)[n := AfterCheck(d[n])];
    if ZeroChecksum(d[n]) {
      CutShown(d, torn, HalfChecked(n));
    }
  }

  lemma {:induction false} ChecksTraceShown(d: Disk, n: nat, torn: Partial, e: Disk)
    requires n <= FACT && e in ChecksTrace(d, n)
    ensures Shown(d, torn, e)
  {
    hide Shown, CheckTrace;
    if e in ChecksTrace(d, n - 1) {
      ChecksTraceShown(d, n - 1, torn, e);
    } else {
      CheckTraceShown(d, n - 1, torn, e);
    }
  }

  /** What the valid replica looks like when it is copied from. */
  lemma SourceKept(d: Disk, i: nat)
    requires FirstPassing(d).Some? && i < FACT && !Passes(d[i])
    ensures var v := FirstPassing(d).value;
            var b := Restored(d, v, i);
            b[v] == AfterCheck(d[v]) && DataCopied(b, v, i)[v] == b[v] && i != v
    ensures var v := FirstPassing(d).value;
            d[v].crc.Some? ==> d[v].crc.value != [] && AfterCheck(d[v]) == d[v]
    ensures var v := FirstPassing(d).value;
            d[v].crc.None? ==> AfterCheck(d[v]).crc.None?
  {
    hide ParseHex, Sum;
    SumOfEmpty();
  }

  lemma TurnTraceShown(d: Disk, i: nat, torn: Partial, e: Disk)
    requires FirstPassing(d).Some? && i < FACT && !Passes(d[i])
    requires var v := FirstPassing(d).value; e in TurnTrace(Restored(d, v, i), v, i, torn)
    ensures Shown(d, torn, e)
  {
    hide Shown, AfterCheck, Passes, Restored, Appears, With, WriteTrace, DataCopied;
    var v := FirstPassing(d).value;
    var b := Restored(d, v, i);
    var d1 := DataCopied(b, v, i);
    SourceKept(d, i);
    if e in CopyTrace(b, DataFile(v), DataFile(i), torn(DataFile(i))) {
      WriteTraceShows(b, DataFile(i), Copying(torn(DataFile(i)), b[v].data.value), e);
      var x :| Appears(Copying(torn(DataFile(i)), b[v].data.value), x) && e == With(b, DataFile(i), Some(x));
      CutShown(d, torn, DataCut(i, x));
    } else if d1[v].crc.Some? {
      assert e in CopyTrace(d1, CrcFile(v), CrcFile(i), torn(CrcFile(i)));
      WriteTraceShows(d1, CrcFile(i), Copying(torn(CrcFile(i)), d1[v].crc.value), e);
      var x :| Appears(Copying(torn(CrcFile(i)), d1[v].crc.value), x) && e == With(d1, CrcFile(i), Some(x));
      CutShown(d, torn, ChecksumCut(i, Some(x)));
    } else {
      var k :| 0 <= k < FACT && e == RemovedBelow(d1, k + 1);
      CutShown(d, torn, RemovalCut(i, k + 1));
    }
  }

  lemma {:induction false} TurnsTraceShown(d: Disk, n: nat, torn: Partial, e: Disk)
    requires FirstPassing(d).Some? && n <= FACT && e in TurnsTrace(d, FirstPassing(d).value, n, torn)
    ensures Shown(d, torn, e)
  {
    hide Shown, TurnTrace, Restored, Passes;
    if e in TurnsTrace(d, FirstPassing(d).value, n - 1, torn) {
      TurnsTraceShown(d, n - 1, torn, e);
    } else {
      TurnTraceShown(d, n - 1, torn, e);
    }
  }

  lemma FactoryTurnShown(d: Disk, i: nat, torn: Partial, e: Disk)
    requires FirstPassing(d).None? && i < FACT && e in CopyBothTrace(FactoryBelow(d, i), FACT, i, torn)
    ensures Shown(d, torn, e)
  {
    hide Shown, AfterCheck, Passes, Appears, WriteTrace, WithFactory;
    var b := FactoryBelow(d, i);
    var d1 := DataCopied(b, FACT, i);
    assert b[FACT] == d[FACT] && d1[FACT] == d[FACT];
    if e in CopyTrace(b, DataFile(FACT), DataFile(i), torn(DataFile(i))) {
      WriteTraceShows(b, DataFile(i), Copying(torn(DataFile(i)), d[FACT].data.value), e);
      var x :| Appears(Copying(torn(DataFile(i)), d[FACT].data.value), x) && e == With(b, DataFile(i), Some(x));
      CutShown(d, torn, FactoryDataCut(i, x));
    } else {
      WriteTraceShows(d1, CrcFile(i), Copying(torn(CrcFile(i)), d[FACT].crc.value), e);
      var x :| Appears(Copying(torn(CrcFile(i)), d[FACT].crc.value), x) && e == With(d1, CrcFile(i), Some(x));
      CutShown(d, torn, FactoryChecksumCut(i, Some(x)));
    }
  }

  lemma {:induction false} FactoryTraceShown(d: Disk, n: nat, torn: Partial, e: Disk)
    requires FirstPassing(d).None? && n <= FACT && e in FactoryTrace(d, n, torn)
    ensures Shown(d, torn, e)
  {
    hide Shown, CopyBothTrace, FactoryBelow, Passes;
    if e in FactoryTrace(d, n - 1, torn) {
      FactoryTraceShown(d, n - 1, torn, e);
    } else {
      FactoryTurnShown(d, n - 1, torn, e);
    }
  }

  /** Every state of a repair is one of the cuts. */
  lemma RepairTraceIsCuts(d: Disk, torn: Partial, e: Disk)
    requires e == d || e in RepairTrace(d, torn)
    ensures exists c :: Apt(d, c) && Reached(d, torn, c) && e == CutDisk(d, c)
  {
    hide ParseHex, Passes, Apt, Reached, CutDisk, ChecksTrace, TurnsTrace, FactoryTrace, FactoryRestored;
    assert Shown(d, torn, e) by {
      hide Shown;
      if e == d {
        NotCut(d, torn);
      } else if e in ChecksTrace(d, FACT) {
        ChecksTraceShown(d, FACT, torn, e);
      } else if FirstPassing(d).Some? {
        TurnsTraceShown(d, FACT, torn, e);
      } else if e in FactoryTrace(d, FACT, torn) {
        FactoryTraceShown(d, FACT, torn, e);
      } else {
        LastCheckShown(d, torn, e);
      }
    }
  }

  lemma NotCut(d: Disk, torn: Partial)
    ensures Shown(d, torn, d)
  {
    CutShown(d, torn, Checks(0));
    assert CheckedBelow(d, 0) == d;
  }

  lemma LastCheckShown(d: Disk, torn: Partial, e: Disk)
    requires FirstPassing(d).None? && e in CheckTrace(FactoryRestored(d), SYS)
    ensures Shown(d, torn, e)
  {
    hide Shown, ParseHex, Passes, FactoryRestored;
    CutShown(d, torn, Ended);
    if ZeroChecksum(FactoryRestored(d)[SYS]) {
      CutShown(d, torn, FactoryHalfChecked);
    }
  }

  // ---------------------------------------------------------------------------------------------
  // When all cuts are harmless

  /** The data that the repair copies over failing replicas. */
  function Source(d: Disk): Option<Bytes> {
    if FirstPassing(d).Some? then d[FirstPassing(d).value].data else d[FACT].data
  }

  /** The checksum file shows the checksum of x. */
  predicate Collides(s: Slot, x: Bytes) {
    s.crc.Some? && ParseHex(s.crc.value) == Sum(x)
  }

  /** No contents found in a data file during its copying, but the complete ones, have the checksum that the file beside
      it shows. */
  ghost predicate NoTornCollision(d: Disk, torn: Partial) {
    forall r, x :: 0 <= r < FACT && x in torn(DataFile(r)) ==>
      Some(x) == Source(d) || !Collides(AfterCheck(d[r]), x)
  }

  /** Every failing replica has a checksum file when its turn comes. */
  predicate Guarded(d: Disk)
    requires FirstPassing(d).Some?
  {
    forall i :: 0 <= i < FACT && !Passes(d[i]) ==> !Unguarded(d, i)
  }

  lemma ChecksSafe(d: Disk, n: nat)
    requires FirstPassing(d).Some? && NoneEmptyUnprotected(d) && n <= FACT
    ensures Safe(d, CheckedBelow(d, n))
  {
    hide AfterCheck, Passes, Safe, EmptyUnprotected, Healthy;
    var v, e := FirstPassing(d).value, CheckedBelow(d, n);
    CheckKeeps(d[v]);
    assert Passes(e[v]);
    SafeIff(d, e);
    forall r | 0 <= r < FACT
      ensures SlotSafe(d, e[r])
    {
      CheckKeeps(d[r]);
      CheckKeeps(AfterCheck(d[r]));
      CheckedNotEmpty(d[r]);
    }
  }

  lemma CheckedNotEmpty(s: Slot)
    ensures !EmptyUnprotected(AfterCheck(s))
  {
  }

  lemma DataCutSafe(d: Disk, torn: Partial, i: nat, x: Bytes)
    requires FirstPassing(d).Some? && NoneEmptyUnprotected(d) && Guarded(d) && NoTornCollision(d, torn)
    requires Apt(d, DataCut(i, x)) && Reached(d, torn, DataCut(i, x))
    ensures Safe(d, CutDisk(d, DataCut(i, x)))
  {
    hide Safe, Passes, AfterCheck, Appears, EmptyUnprotected, SlotSafe;
    var v := FirstPassing(d).value;
    var e := CutDisk(d, DataCut(i, x));
    CheckKeeps(d[v]);
    HealthyPasses(d[v]);
    SourceKept(d, i);
    SafeIff(d, e);
    assert x == [] || x in torn(DataFile(i)) || Some(x) == d[v].data by { SourceFound(d, torn, i, x); }
    assert !Unguarded(d, i);
    CheckKeeps(d[i]);
    PartSafe(d, AfterCheck(d[i]), x);
    forall r | 0 <= r < FACT && r != i
      ensures SlotSafe(d, e[r])
    {
      OthersSafe(d, i, r);
    }
  }

  lemma SourceFound(d: Disk, torn: Partial, i: nat, x: Bytes)
    requires Apt(d, DataCut(i, x)) && Reached(d, torn, DataCut(i, x))
    ensures x == [] || x in torn(DataFile(i)) || Some(x) == d[FirstPassing(d).value].data
  {
    hide Passes, ParseHex;
  }

  /** Contents beside a checksum file that survived the check are rejected, unless they are the complete ones. */
  lemma PartSafe(d: Disk, s: Slot, x: Bytes)
    requires FirstPassing(d).Some? && s.crc.Some? && ParseHex(s.crc.value) != 0
    requires x == [] || !Collides(s, x) || Some(x) == d[FirstPassing(d).value].data
    ensures SlotSafe(d, Slot(Some(x), s.crc))
  {
    hide ParseHex, Sum;
    SumOfEmpty();
  }

  /** The other replicas while replica i has its turn. */
  lemma OthersSafe(d: Disk, i: nat, r: nat)
    requires FirstPassing(d).Some? && NoneEmptyUnprotected(d) && Guarded(d)
    requires i < FACT && !Passes(d[i]) && r < FACT && r != i
    ensures SlotSafe(d, RestoredSlot(d, FirstPassing(d).value, i, r))
  {
    hide ParseHex, Sum;
    SumOfEmpty();
    CheckKeeps(d[r]);
    assert !Unguarded(d, r) || Passes(d[r]);
  }

  lemma RemovalCutSafe(d: Disk, i: nat, k: nat)
    requires FirstPassing(d).Some? && NoneEmptyUnprotected(d) && Guarded(d) && Apt(d, RemovalCut(i, k))
    ensures Safe(d, CutDisk(d, RemovalCut(i, k)))
  {
    hide ParseHex, Sum, Safe;
    SumOfEmpty();
    var v := FirstPassing(d).value;
    var e := CutDisk(d, RemovalCut(i, k));
    CheckKeeps(d[v]);
    assert Passes(e[v]);
    SafeIff(d, e);
    assert !Unguarded(d, i);
    forall r | 0 <= r < FACT
      ensures SlotSafe(d, e[r])
    {
      CheckKeeps(d[r]);
    }
  }

  lemma EndedSafe(d: Disk)
    requires FirstPassing(d).Some? && NoneEmptyUnprotected(d)
    ensures Safe(d, Repaired(d))
  {
    hide Repaired, AfterCheck, Passes, EmptyUnprotected;
    RepairHeals(d);
    HealthyDiskKept(Repaired(d));
    assert CheckedBelow(d, 0) == d;
    ChecksSafe(d, 0);
  }

  lemma CutIsSafe(d: Disk, torn: Partial, c: Cut)
    requires FirstPassing(d).Some? && NoneEmptyUnprotected(d) && Guarded(d) && NoTornCollision(d, torn)
    requires Apt(d, c) && Reached(d, torn, c)
    ensures Safe(d, CutDisk(d, c))
  {
    hide Safe, NoTornCollision, Reached, ParseHex, Sum, EmptyUnprotected, Restored, FactoryRestored, Repaired;
    match c
    case Checks(n) => ChecksSafe(d, n);
    case HalfChecked(i) => assert false;
    case DataCut(i, x) => DataCutSafe(d, torn, i, x);
    case ChecksumCut(i, x) => CutChecksumHeals(d, i, x);
    case RemovalCut(i, k) => RemovalCutSafe(d, i, k);
    case Ended => EndedSafe(d);
  }

  /** With a valid replica: from every state of the repair, the first included, the next repair makes all four replicas
      healthy with verified contents, exactly when no replica is an empty file without checksum and every failing one
      has a checksum file when its turn comes. */
  lemma RepairCutSafeIff(d: Disk, torn: Partial)
    requires FirstPassing(d).Some? && NoTornCollision(d, torn)
    ensures (forall e :: e == d || e in RepairTrace(d, torn) ==> Safe(d, e)) <==> NoneEmptyUnprotected(d) && Guarded(d)
  {
    hide Passes, Safe, RepairTrace, NoTornCollision, Apt, Reached, CutDisk, Unguarded, EmptyUnprotected;
    if !NoneEmptyUnprotected(d) {
      assert !Safe(d, d) by { SafeIff(d, d); }
    } else if !Guarded(d) {
      var i :| 0 <= i < FACT && !Passes(d[i]) && Unguarded(d, i);
      OpeningReached(d, i, torn);
    } else {
      forall e | e == d || e in RepairTrace(d, torn)
        ensures Safe(d, e)
      {
        RepairTraceIsCuts(d, torn, e);
        var c :| Apt(d, c) && Reached(d, torn, c) && e == CutDisk(d, c);
        CutIsSafe(d, torn, c);
      }
    }
  }

  /** The state in which replica i has just been opened is one of the repair, and a bad one if i is unguarded. */
  lemma OpeningReached(d: Disk, i: nat, torn: Partial)
    requires FirstPassing(d).Some? && NoneEmptyUnprotected(d) && i < FACT && !Passes(d[i]) && Unguarded(d, i)
    ensures exists e :: e in RepairTrace(d, torn) && !Safe(d, e)
  {
    hide Passes, RepairTrace, CutDisk, Unguarded, Repaired, AfterCheck, Healthy, EmptyUnprotected;
    var v := FirstPassing(d).value;
    CutOpenHealsIff(d, i);
    assert !Safe(d, CutDisk(d, DataCut(i, [])));
    CheckKeeps(d[v]);
    assert AfterCheck(d[v]).data.Some? by { PassingHasData(d[v]); }
    OpeningInTurn(d, i, torn);
    TurnInTrace(d, i, FACT, torn, CutDisk(d, DataCut(i, [])));
    TurnsInTrace(d, torn, CutDisk(d, DataCut(i, [])));
  }

  lemma PassingHasData(s: Slot)
    requires Passes(s) && !EmptyUnprotected(s)
    ensures AfterCheck(s).data.Some?
  {
    hide ParseHex, Sum;
    SumOfEmpty();
  }

  lemma TurnsInTrace(d: Disk, torn: Partial, e: Disk)
    requires FirstPassing(d).Some? && e in TurnsTrace(d, FirstPassing(d).value, FACT, torn)
    ensures e in RepairTrace(d, torn)
  {
    hide ChecksTrace, TurnsTrace, Passes;
  }

  lemma OpeningInTurn(d: Disk, i: nat, torn: Partial)
    requires FirstPassing(d).Some? && i < FACT && !Passes(d[i]) && AfterCheck(d[FirstPassing(d).value]).data.Some?
    ensures var v := FirstPassing(d).value;
            CutDisk(d, DataCut(i, [])) in TurnTrace(Restored(d, v, i), v, i, torn)
  {
    hide Passes, AfterCheck, Restored, With;
    var v := FirstPassing(d).value;
    var b := Restored(d, v, i);
    SourceKept(d, i);
    var t := CopyTrace(b, DataFile(v), DataFile(i), torn(DataFile(i)));
    assert t[0] == CutDisk(d, DataCut(i, []));
    assert TurnTrace(b, v, i, torn)[0] == t[0];
  }

  lemma {:induction false} TurnInTrace(d: Disk, i: nat, n: nat, torn: Partial, e: Disk)
    requires FirstPassing(d).Some? && i < n <= FACT && !Passes(d[i])
    requires var v := FirstPassing(d).value; e in TurnTrace(Restored(d, v, i), v, i, torn)
    ensures e in TurnsTrace(d, FirstPassing(d).value, n, torn)
  {
    hide Passes, Restored, TurnTrace;
    if i < n - 1 {
      TurnInTrace(d, i, n - 1, torn, e);
    }
  }

  // ---------------------------------------------------------------------------------------------
  // The same from the factory copy

  predicate FactoryGuarded(d: Disk) {
    d[FACT].data.Some? && d[FACT].data.value != []
    && forall r :: 0 <= r < FACT ==>
         AfterCheck(d[r]).crc.Some?
         && Passes(Slot(d[FACT].data, if d[FACT].crc.Some? then d[FACT].crc else AfterCheck(d[r]).crc))
  }

  /** A slot from which a repair can only lead to the factory data. */
  predicate FactorySlotSafe(d: Disk, s: Slot) {
    SlotSafe(d, s) && Passes(Slot(d[FACT].data, if d[FACT].crc.Some? then d[FACT].crc else AfterCheck(s).crc))
  }

  lemma FactorySafeIf(d: Disk, e: Disk)
    requires FirstPassing(d).None? && d[FACT].data.Some? && d[FACT].data.value != [] && e[FACT] == d[FACT]
    requires forall r :: 0 <= r < FACT ==> FactorySlotSafe(d, e[r])
    ensures Safe(d, e)
  {
    hide ParseHex, Sum, EmptyUnprotected;
    if FirstPassing(e).Some? {
      SafeIff(d, e);
    } else {
      FactoryHealsIff(e);
      assert forall r :: 0 <= r < FACT ==> FactorySlotSafe(d, e[r]);
    }
  }

  lemma FactoryDataCutSafe(d: Disk, torn: Partial, i: nat, x: Bytes)
    requires FirstPassing(d).None? && FactoryGuarded(d) && NoTornCollision(d, torn)
    requires Apt(d, FactoryDataCut(i, x)) && Reached(d, torn, FactoryDataCut(i, x))
    ensures FactorySlotSafe(d, Slot(Some(x), AfterCheck(d[i]).crc))
  {
    hide ParseHex, Sum;
    SumOfEmpty();
    CheckKeeps(d[i]);
    assert x == [] || x in torn(DataFile(i)) || Some(x) == d[FACT].data;
  }

  /** Slots that stand before, after and in the middle of the factory's turn. */
  lemma FactorySlotsSafe(d: Disk, r: nat, c: Option<Bytes>)
    requires FirstPassing(d).None? && FactoryGuarded(d) && r < FACT
    ensures FactorySlotSafe(d, d[r]) && FactorySlotSafe(d, AfterCheck(d[r]))
    ensures FactorySlotSafe(d, WithFactory(AfterCheck(d[r]), d[FACT]))
    ensures d[FACT].crc.Some? ==> FactorySlotSafe(d, Slot(d[FACT].data, c))
  {
    hide ParseHex, Sum;
    SumOfEmpty();
    CheckKeeps(d[r]);
  }

  lemma FactoryCutIsSafe(d: Disk, torn: Partial, c: Cut)
    requires FirstPassing(d).None? && FactoryGuarded(d) && NoTornCollision(d, torn)
    requires Apt(d, c) && Reached(d, torn, c)
    ensures Safe(d, CutDisk(d, c))
  {
    hide Safe, Passes, NoTornCollision, Reached, FactorySlotSafe, AfterCheck;
    var e := CutDisk(d, c);
    if c.FactoryDataCut? {
      FactoryDataCutSafe(d, torn, c.i, c.x);
    }
    FactoryChecked(d);
    forall r | 0 <= r < FACT
      ensures FactorySlotSafe(d, e[r])
    {
      FactorySlotsSafe(d, r, if c.FactoryChecksumCut? then c.c else None);
    }
    FactorySafeIf(d, e);
  }

  lemma FactoryChecked(d: Disk)
    requires FirstPassing(d).None? && FactoryGuarded(d)
    ensures forall r :: 0 <= r < FACT ==> !ZeroChecksum(d[r])
    ensures !ZeroChecksum(FactoryRestored(d)[SYS]) && Repaired(d) == FactoryRestored(d)
  {
    hide ParseHex, Sum;
    SumOfEmpty();
    CheckKeeps(d[SYS]);
  }

  /** Without a valid replica, but with a factory copy: from every state of the repair, the first included, the next one
      makes all four replicas healthy with the factory data, exactly when a checksum file is left beside each replica
      after the check and the factory data match the factory checksum or, without one, all of these. */
  lemma FactoryCutSafeIff(d: Disk, torn: Partial)
    requires FirstPassing(d).None? && d[FACT].data.Some? && NoTornCollision(d, torn)
    ensures (forall e :: e == d || e in RepairTrace(d, torn) ==> Safe(d, e)) <==> FactoryGuarded(d)
  {
    hide Passes, Safe, RepairTrace, NoTornCollision, Apt, Reached, CutDisk, FactoryGuarded;
    if FactoryGuarded(d) {
      forall e | e == d || e in RepairTrace(d, torn)
        ensures Safe(d, e)
      {
        RepairTraceIsCuts(d, torn, e);
        var c :| Apt(d, c) && Reached(d, torn, c) && e == CutDisk(d, c);
        FactoryCutIsSafe(d, torn, c);
      }
    } else {
      FactoryOpeningReached(d, torn);
    }
  }

  lemma FactoryOpeningReached(d: Disk, torn: Partial)
    requires FirstPassing(d).None? && d[FACT].data.Some? && !FactoryGuarded(d)
    ensures exists e :: (e == d || e in RepairTrace(d, torn)) && !Safe(d, e)
  {
    hide Passes, RepairTrace, AfterCheck, Repaired, CutDisk;
    FactoryHealsIff(d);
    if r :| 0 <= r < FACT && AfterCheck(d[r]).crc.None? {
      FactoryOpeningUnsafe(d, r);
      FactoryOpeningInTrace(d, r, FACT, torn);
      FactoryInTrace(d, torn, CutDisk(d, FactoryDataCut(r, [])));
    } else {
      assert !Safe(d, d);
    }
  }

  lemma FactoryOpeningUnsafe(d: Disk, r: nat)
    requires FirstPassing(d).None? && d[FACT].data.Some? && r < FACT && AfterCheck(d[r]).crc.None?
    ensures !Safe(d, CutDisk(d, FactoryDataCut(r, [])))
  {
    hide Passes, AfterCheck, Repaired, WithFactory;
    var e := CutDisk(d, FactoryDataCut(r, []));
    assert EmptyUnprotected(e[r]);
    CheckKeeps(e[r]);
    RepairHeals(e);
  }

  lemma FactoryInTrace(d: Disk, torn: Partial, e: Disk)
    requires FirstPassing(d).None? && e in FactoryTrace(d, FACT, torn)
    ensures e in RepairTrace(d, torn)
  {
    hide ChecksTrace, FactoryTrace, CheckTrace, Passes;
  }

  lemma FactoryOpeningInTurn(d: Disk, i: nat, torn: Partial)
    requires FirstPassing(d).None? && d[FACT].data.Some? && i < FACT
    ensures CutDisk(d, FactoryDataCut(i, [])) in CopyBothTrace(FactoryBelow(d, i), FACT, i, torn)
  {
    hide Passes, AfterCheck, With, FactoryBelow;
    var b := FactoryBelow(d, i);
    assert b[FACT] == d[FACT] by { FactoryUntouched(d, i); }
    var t := CopyTrace(b, DataFile(FACT), DataFile(i), torn(DataFile(i)));
    assert t[0] == CutDisk(d, FactoryDataCut(i, []));
    assert CopyBothTrace(b, FACT, i, torn)[0] == t[0];
  }

  lemma FactoryUntouched(d: Disk, i: nat)
    ensures FactoryBelow(d, i)[FACT] == d[FACT]
  {
  }

  lemma {:induction false} FactoryOpeningInTrace(d: Disk, i: nat, n: nat, torn: Partial)
    requires FirstPassing(d).None? && d[FACT].data.Some? && i < n <= FACT
    ensures CutDisk(d, FactoryDataCut(i, [])) in FactoryTrace(d, n, torn)
  {
    hide Passes, CutDisk, FactoryBelow, CopyBothTrace;
    if i < n - 1 {
      FactoryOpeningInTrace(d, i, n - 1, torn);
    } else {
      FactoryOpeningInTurn(d, i, torn);
    }
  }
}
