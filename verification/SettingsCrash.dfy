/** Saving a setting in the presence of failing writes and power cuts. */
module SettingsCrash {
  import opened Bytes
  import opened Numerals
  import opened SettingsDisk
  import opened SettingsRepair

  /** How the medium behaves when one file is written: whether it can be opened, the contents that can be found on it
      while the write is under way, what is found when it is over, and whether the stream ends in a good state. */
  datatype Attempt = Attempt(opens: bool, during: seq<Bytes>, lands: Bytes, good: bool)

  /** The behaviour of the medium over one save: data1 and data2 are retried, the checksum files are not. */
  datatype Medium = Medium(data1: nat -> Attempt, data2: nat -> Attempt, crc1: Attempt, crc2: Attempt)

  const MAX_TRIES: nat := 10

  /** Contents that an attempt can leave behind at some point; opening a file for writing empties it. */
  predicate Appears(a: Attempt, x: Bytes) {
    x == [] || x in a.during || x == a.lands
  }

  ghost predicate AppearsIn(a: nat -> Attempt, x: Bytes) {
    exists i: nat :: Appears(a(i), x)
  }

  /** A file is as before or holds something that was written to it. */
  ghost predicate DataTouched(before: Option<Bytes>, a: nat -> Attempt, after: Option<Bytes>) {
    after == before || (after.Some? && AppearsIn(a, after.value))
  }

  predicate CrcTouched(before: Option<Bytes>, a: Attempt, after: Option<Bytes>) {
    after == before || (after.Some? && Appears(a, after.value))
  }

  /** A disk that can be found at some point of a save. */
  ghost predicate Touched(d0: Disk, d: Disk, io: Medium) {
    && d[RSV] == d0[RSV] && d[EXT_RSV] == d0[EXT_RSV] && d[FACT] == d0[FACT]
    && DataTouched(d0[SYS].data, io.data1, d[SYS].data) && CrcTouched(d0[SYS].crc, io.crc1, d[SYS].crc)
    && DataTouched(d0[EXT].data, io.data2, d[EXT].data) && CrcTouched(d0[EXT].crc, io.crc2, d[EXT].crc)
  }

  /** The contents of x were held by some replica before the save. */
  predicate HeldBefore(d0: Disk, x: Bytes) {
    d0[SYS].data == Some(x) || d0[EXT].data == Some(x) || d0[RSV].data == Some(x) || d0[EXT_RSV].data == Some(x)
  }

  /** A checksum that a checksum file can show at some point of the save. */
  predicate ShownBy(d0: Slot, a: Attempt, n: nat) {
    (d0.crc.Some? && ParseHex(d0.crc.value) == n) || n == 0 || n == ParseHex(a.lands)
    || exists t :: t in a.during && n == ParseHex(t)
  }

  /** No torn contents have a checksum that the checksum file beside them can show. */
  ghost predicate NoCollision(d0: Disk, json: Bytes, io: Medium) {
    && (forall x :: AppearsIn(io.data1, x) && x != json && !HeldBefore(d0, x) && Sum(x) != 0 ==> !ShownBy(d0[SYS], io.crc1, Sum(x)))
    && (forall x :: AppearsIn(io.data2, x) && x != json && !HeldBefore(d0, x) && Sum(x) != 0 ==> !ShownBy(d0[EXT], io.crc2, Sum(x)))
  }

  ghost predicate Protected(d: Disk) {
    forall r :: 0 <= r < FACT ==> Healthy(d[r]) && d[r].crc.Some?
  }

  lemma TornIsRejected(d0: Slot, json: Bytes, a: nat -> Attempt, c: Attempt, d: Slot, held: Bytes -> bool)
    requires Healthy(d0) && d0.crc.Some? && held(d0.data.value)
    requires DataTouched(d0.data, a, d.data) && CrcTouched(d0.crc, c, d.crc)
    requires forall x :: AppearsIn(a, x) && x != json && !held(x) && Sum(x) != 0 ==> !ShownBy(d0, c, Sum(x))
    ensures Passes(d) ==> Healthy(d) && (d.data.value == json || held(d.data.value))
    ensures !EmptyUnprotected(d)
  {
    hide ParseHex, Sum;
    SumOfEmpty();
  }

  /** Whatever point of a save the power fails at, the repair then makes all four replicas healthy, and the primary
      holds the complete new value or a value that some replica held before the save. */
  lemma SaveIsCrashSafe(d0: Disk, json: Bytes, io: Medium, d: Disk)
    requires Protected(d0) && NoCollision(d0, json, io) && Touched(d0, d, io)
    ensures AllHealthy(Repaired(d))
    ensures forall r :: 0 <= r < FACT ==>
      Repaired(d)[r].data.Some? && (Repaired(d)[r].data.value == json || HeldBefore(d0, Repaired(d)[r].data.value))
  {
    hide ParseHex, Sum, Passes, Healthy, EmptyUnprotected, DataTouched, CrcTouched, AppearsIn, ShownBy, Repaired;
    var held := (x: Bytes) => HeldBefore(d0, x);
    assert held(d0[SYS].data.value) && held(d0[EXT].data.value) by { ProtectedIsHeld(d0); }
    TornIsRejected(d0[SYS], json, io.data1, io.crc1, d[SYS], held);
    TornIsRejected(d0[EXT], json, io.data2, io.crc2, d[EXT], held);
    forall r | 0 <= r < FACT
      ensures !EmptyUnprotected(d[r])
      ensures Passes(d[r]) ==> Healthy(d[r]) && (d[r].data == Some(json) || (d[r].data.Some? && HeldBefore(d0, d[r].data.value)))
    {
      HealthyPasses(d[r]);
    }
    HealthyPasses(d[RSV]);
    RepairHeals(d);
    var v := FirstPassing(d).value;
    forall r | 0 <= r < FACT
      ensures Repaired(d)[r].data.Some? && (Repaired(d)[r].data.value == json || HeldBefore(d0, Repaired(d)[r].data.value))
    {
      HealthyPasses(d[r]);
      HealthyPasses(d[v]);
      RepairCopiesFirst(d, r);
    }
  }

  lemma HealthyPasses(s: Slot)
    ensures Healthy(s) ==> Passes(s) && !EmptyUnprotected(s) && s.data.Some?
    ensures Passes(s) ==> s.data.Some?
  {
  }

  lemma ProtectedIsHeld(d0: Disk)
    requires Protected(d0)
    ensures d0[SYS].data.Some? && d0[EXT].data.Some?
    ensures HeldBefore(d0, d0[SYS].data.value) && HeldBefore(d0, d0[EXT].data.value)
  {
  }

  /** At whatever point of a save: once the new data and its checksum are durable in the primary, the repair keeps the
      new value exactly when its checksum is not zero; a value whose checksum is zero is lost, and an older one comes
      back. */
  lemma DurableIffNonzero(d0: Disk, json: Bytes, io: Medium, d: Disk)
    requires Protected(d0) && Touched(d0, d, io)
    requires d[SYS] == Slot(Some(json), Some(PrintHex(Sum(json), 8)))
    ensures Repaired(d)[SYS].data == Some(json) <==> Sum(json) != 0
  {
    hide ParseHex, Sum, PrintHex;
    ParsePrinted(Sum(json));
    SumOfEmpty();
    assert d[EXT].crc.Some?;
  }
}
