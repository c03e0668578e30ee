/** What loading a setting returns and leaves on the disk, with the lazy repair it falls back on. */
module SettingsLoad {
  import opened Bytes
  import opened SettingsDisk

  /** Two files with the same contents; two empty ones do not count as equal.  Of two absent files the source compares
      buffers that nothing was read into: unset says whether it finds them equal. */
  predicate SameFiles(a: Option<Bytes>, b: Option<Bytes>, unset: bool) {
    a == b && if a.Some? then a.value != [] else unset
  }

  /** A file copied over another; an absent source leaves the target alone. */
  function Over(src: Slot, dst: Slot): Slot {
    Slot(if src.data.Some? then src.data else dst.data, if src.crc.Some? then src.crc else dst.crc)
  }

  const GONE := Slot(None, None)

  /** The first other replica that passes, or else the factory copy, in the place of the primary. */
  function PrimaryRestored(d: Disk): Disk {
    if Passes(d[EXT]) then
      d[SYS := AfterCheck(d[EXT])][EXT := AfterCheck(d[EXT])]
    else if Passes(d[RSV]) then
      // the extended replica is refilled from the extended reserve, which has not been checked
      d[SYS := AfterCheck(d[RSV])][RSV := AfterCheck(d[RSV])][EXT := d[EXT_RSV]]
    else if Passes(d[EXT_RSV]) then
      var x := AfterCheck(d[EXT_RSV]);
      [x, x, x, x, d[FACT]]
    else
      var f := d[FACT];
      [if Passes(f) then AfterCheck(f) else GONE, f, f, f, f]
  }

  /** The disk after the lazy repair. */
  function LazyDisk(d: Disk, unset: bool): Disk {
    if SameFiles(d[SYS].data, d[RSV].data, unset) then d
    else if Passes(d[SYS]) then d[SYS := AfterCheck(d[SYS])][RSV := Over(AfterCheck(d[SYS]), d[RSV])]
    else PrimaryRestored(d)
  }

  /** The disk after loading. */
  function LoadDisk(d: Disk, unset: bool): Disk {
    var d1 := d[SYS := AfterCheck(d[SYS])];
    if Passes(d[SYS]) then d1
    else
      var d2 := LazyDisk(d1, unset);
      d2[SYS := AfterCheck(d2[SYS])]
  }

  /** Error code and text returned; an empty object stands for a failed load. */
  function LoadResult(d: Disk, unset: bool): (Error, Bytes) {
    if Passes(d[SYS]) then (NO_ERROR, d[SYS].data.value)
    else
      var d2 := LazyDisk(d[SYS := AfterCheck(d[SYS])], unset);
      if Passes(d2[SYS]) then (NO_ERROR, d2[SYS].data.value) else (ERROR, EMPTY_OBJECT)
  }

  const EMPTY_OBJECT: Bytes := [123, 125]

  /** The first of extended, reserve, extended reserve and factory that is reported valid. */
  function Donor(d: Disk): (v: Option<nat>)
    ensures v.Some? ==> EXT <= v.value <= FACT && Passes(d[v.value]) && forall r :: EXT <= r < v.value ==> !Passes(d[r])
    ensures v.None? ==> forall r :: EXT <= r <= FACT ==> !Passes(d[r])
  {
    if Passes(d[EXT]) then Some(EXT)
    else if Passes(d[RSV]) then Some(RSV)
    else if Passes(d[EXT_RSV]) then Some(EXT_RSV)
    else if Passes(d[FACT]) then Some(FACT)
    else None
  }

  /** Exactly when loading succeeds: the primary passes, or the primary and its reserve do not compare as equal and the
      first other copy reported valid is not the empty one. */
  lemma LoadSucceedsIff(d: Disk, unset: bool)
    ensures LoadResult(d, unset).0 == NO_ERROR <==>
              Passes(d[SYS]) || (!SameFiles(AfterCheck(d[SYS]).data, d[RSV].data, unset)
                                 && Donor(d).Some? && !EmptyUnprotected(d[Donor(d).value]))
  {
    hide ParseHex, Sum;
    SumOfEmpty();
    CheckKeeps(d[SYS]);
  }

  lemma PrimaryLoads(d: Disk, unset: bool)
    requires Passes(d[SYS])
    ensures LoadResult(d, unset) == (NO_ERROR, d[SYS].data.value)
  {
  }

  /** With the primary invalid, what is returned is the contents of the first valid copy, and the primary then holds
      it. */
  lemma LoadReturnsDonor(d: Disk, unset: bool)
    requires !Passes(d[SYS]) && LoadResult(d, unset).0 == NO_ERROR
    ensures Donor(d).Some? && LoadResult(d, unset).1 == d[Donor(d).value].data.value
    ensures Healthy(LoadDisk(d, unset)[SYS]) && LoadDisk(d, unset)[SYS] == d[Donor(d).value]
  {
    hide ParseHex, Sum;
    SumOfEmpty();
    CheckKeeps(d[SYS]);
    LoadSucceedsIff(d, unset);
  }

  /** What a load that found a donor for an invalid primary leaves in every replica.  From the extended replica only the
      primary is refilled; from the reserve the extended replica is refilled too, with what is in the extended reserve;
      the extended reserve and the factory copy are copied to all four. */
  lemma LoadedReplicas(d: Disk, unset: bool)
    requires !Passes(d[SYS]) && LoadResult(d, unset).0 == NO_ERROR
    ensures var e, v := LoadDisk(d, unset), Donor(d).value;
            && Donor(d).Some? && e[SYS] == d[v]
            && (v == EXT ==> e[EXT] == d[EXT] && e[RSV] == d[RSV] && e[EXT_RSV] == d[EXT_RSV])
            && (v == RSV ==> e[EXT] == d[EXT_RSV] && e[RSV] == d[RSV] && e[EXT_RSV] == d[EXT_RSV])
            && (v == EXT_RSV || v == FACT ==> e[EXT] == d[v] && e[RSV] == d[v] && e[EXT_RSV] == d[v])
  {
    hide ParseHex, Sum;
    SumOfEmpty();
    CheckKeeps(d[SYS]);
    LoadSucceedsIff(d, unset);
    LoadReturnsDonor(d, unset);
  }

  /** No load changes the factory copy; one with a valid primary changes no replica but an empty primary, and neither does
      one that finds the primary equal to its reserve, apart from what the check removes. */
  lemma LoadSpares(d: Disk, unset: bool)
    ensures LoadDisk(d, unset)[FACT] == d[FACT]
    ensures Healthy(d[SYS]) ==> LoadDisk(d, unset) == d
    ensures EmptyUnprotected(d[SYS]) ==> LoadDisk(d, unset) == d[SYS := GONE]
    ensures !Passes(d[SYS]) && SameFiles(AfterCheck(d[SYS]).data, d[RSV].data, unset) ==>
              forall r :: EXT <= r <= FACT ==> LoadDisk(d, unset)[r] == d[r]
  {
    hide ParseHex, Sum;
    SumOfEmpty();
    CheckKeeps(d[SYS]);
  }

  /** The lazy repair of a healthy primary that differs from its reserve brings the reserve up to date, file by file, and
      changes nothing else. */
  lemma LazyRefreshesReserve(d: Disk, unset: bool)
    requires Healthy(d[SYS])
    ensures LazyDisk(d, unset)[RSV].data == d[SYS].data
    ensures d[SYS].data != d[RSV].data && d[SYS].crc.Some? ==> LazyDisk(d, unset)[RSV] == d[SYS]
    ensures d[SYS].data != d[RSV].data && d[SYS].crc.None? ==> LazyDisk(d, unset)[RSV].crc == d[RSV].crc
    ensures forall r :: 0 <= r <= FACT && r != RSV ==> LazyDisk(d, unset)[r] == d[r]
  {
    hide ParseHex, Sum;
    CheckKeeps(d[SYS]);
  }

  /** A successful load can be repeated with the same outcome and without a further write, unless it accepted and
      deleted an empty primary. */
  lemma LoadStable(d: Disk, unset: bool)
    requires LoadResult(d, unset).0 == NO_ERROR
    ensures !EmptyUnprotected(d[SYS]) <==>
              LoadResult(LoadDisk(d, unset), unset) == LoadResult(d, unset) && LoadDisk(LoadDisk(d, unset), unset) == LoadDisk(d, unset) && Healthy(LoadDisk(d, unset)[SYS])
  {
    hide ParseHex, Sum, LazyDisk;
    SumOfEmpty();
    CheckKeeps(d[SYS]);
    if !Passes(d[SYS]) {
      LoadReturnsDonor(d, unset);
    }
  }
}
