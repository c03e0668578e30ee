/** Power cuts during a load, whose lazy repair removes the primary before it copies another replica over it. */
module SettingsLoadCut {
  import opened Bytes
  import opened SettingsDisk
  import opened SettingsCrash
  import opened SettingsLoad
  import opened SettingsFiles

  /** The trace has a state in which the primary holds x and has no checksum file. */
  ghost predicate ShowsPrimary(t: seq<Disk>, x: Bytes) {
    exists e :: e in t && e[SYS] == Slot(Some(x), None)
  }

  lemma ShownWithin(a: seq<Disk>, b: seq<Disk>, c: seq<Disk>, x: Bytes)
    requires ShowsPrimary(b, x)
    ensures ShowsPrimary(a + b, x) && ShowsPrimary(b + c, x) && ShowsPrimary(a + (b + c), x)
  {
    var e :| e in b && e[SYS] == Slot(Some(x), None);
    assert e in a + b && e in b + c && e in a + (b + c);
  }

  /** Contents found in the primary while it is being copied over. */
  predicate FoundInPrimary(torn: Partial, x: Bytes) {
    x == [] || x in torn(DataFile(SYS))
  }

  lemma CopyShows(b: Disk, r: nat, torn: Partial, x: Bytes)
    requires b[SYS] == GONE && SYS < r < 5 && b[r].data.Some? && FoundInPrimary(torn, x)
    ensures ShowsPrimary(CopyBothTrace(b, r, SYS, torn), x)
  {
    var f := DataFile(SYS);
    var t := CopyTrace(b, DataFile(r), f, torn(f));
    if x == [] {
      assert t[0] == With(b, f, Some(x));
    } else {
      var k :| 0 <= k < |torn(f)| && torn(f)[k] == x;
      assert t[k + 1] == With(b, f, Some(x));
    }
    assert With(b, f, Some(x)) in t && ShowsPrimary(t, x);
    var u := CopyTrace(DataCopied(b, r, SYS), CrcFile(r), CrcFile(SYS), torn(CrcFile(SYS)));
    assert CopyBothTrace(b, r, SYS, torn) == t + u;
    ShownWithin([], t, u, x);
  }

  lemma FactoryShows(d: Disk, torn: Partial, x: Bytes)
    requires d[SYS] == GONE && d[FACT].data.Some? && FoundInPrimary(torn, x)
    ensures ShowsPrimary(LazyFactoryTrace(d, torn), x)
  {
    hide CopyBothTrace, CheckTrace, RemoveBothTrace, Passes, AfterCheck, ShowsPrimary;
    CopyShows(d, FACT, torn, x);
    var t := CopyBothTrace(d, FACT, SYS, torn);
    assert LazyFactoryTrace(d, torn) == t + LazyFactoryTrace(d, torn)[|t|..];
    ShownWithin([], t, LazyFactoryTrace(d, torn)[|t|..], x);
  }

  lemma ExtReserveShows(d: Disk, torn: Partial, x: Bytes)
    requires d[SYS] == GONE && (if Passes(d[EXT_RSV]) then Healthy(d[EXT_RSV]) else Passes(d[FACT]))
    requires FoundInPrimary(torn, x)
    ensures ShowsPrimary(FromExtReserveTrace(d, torn), x)
  {
    hide CopyBothTrace, CheckTrace, RemoveBothTrace, LazyFactoryTrace, AfterCheck, ShowsPrimary;
    var a, d1 := CheckTrace(d, EXT_RSV), d[EXT_RSV := AfterCheck(d[EXT_RSV])];
    if Passes(d[EXT_RSV]) {
      CheckKeeps(d[EXT_RSV]);
      CopyShows(d1, EXT_RSV, torn, x);
      var t := CopyBothTrace(d1, EXT_RSV, SYS, torn);
      var u := FromExtReserveTrace(d, torn)[|a + t|..];
      assert FromExtReserveTrace(d, torn) == a + (t + u);
      ShownWithin(a, t, u, x);
    } else {
      FactoryShows(d[EXT_RSV := GONE], torn, x);
      var t := LazyFactoryTrace(d[EXT_RSV := GONE], torn);
      ShownWithin(RemoveBothTrace(d1, EXT_RSV), t, [], x);
      ShownWithin(a, RemoveBothTrace(d1, EXT_RSV) + t, [], x);
    }
  }

  lemma ReserveShows(d: Disk, torn: Partial, x: Bytes)
    requires d[SYS] == GONE && !Passes(d[EXT]) && Donor(d).Some? && !EmptyUnprotected(d[Donor(d).value])
    requires FoundInPrimary(torn, x)
    ensures ShowsPrimary(FromReserveTrace(d, torn), x)
  {
    hide CopyBothTrace, CheckTrace, RemoveBothTrace, FromExtReserveTrace, AfterCheck, ShowsPrimary, ParseHex, Sum;
    var a, d1 := CheckTrace(d, RSV), d[RSV := AfterCheck(d[RSV])];
    CheckKeeps(d[Donor(d).value]);
    if Passes(d[RSV]) {
      CopyShows(d1, RSV, torn, x);
      var t := CopyBothTrace(d1, RSV, SYS, torn);
      var u := FromReserveTrace(d, torn)[|a + t|..];
      assert FromReserveTrace(d, torn) == a + (t + u);
      ShownWithin(a, t, u, x);
    } else {
      ExtReserveShows(d[RSV := GONE], torn, x);
      var t := FromExtReserveTrace(d[RSV := GONE], torn);
      ShownWithin(RemoveBothTrace(d1, RSV), t, [], x);
      ShownWithin(a, RemoveBothTrace(d1, RSV) + t, [], x);
    }
  }

  lemma PrimaryShows(d: Disk, torn: Partial, x: Bytes)
    requires d[SYS] == GONE && Donor(d).Some? && !EmptyUnprotected(d[Donor(d).value]) && FoundInPrimary(torn, x)
    ensures ShowsPrimary(PrimaryTrace(d, torn), x)
  {
    hide CopyBothTrace, CheckTrace, RemoveBothTrace, FromReserveTrace, AfterCheck, ShowsPrimary, ParseHex, Sum;
    var a, d1 := CheckTrace(d, EXT), d[EXT := AfterCheck(d[EXT])];
    CheckKeeps(d[Donor(d).value]);
    if Passes(d[EXT]) {
      CopyShows(d1, EXT, torn, x);
      ShownWithin(a, CopyBothTrace(d1, EXT, SYS, torn), [], x);
    } else {
      ReserveShows(d[EXT := GONE], torn, x);
      var t := FromReserveTrace(d[EXT := GONE], torn);
      ShownWithin(RemoveBothTrace(d1, EXT), t, [], x);
      ShownWithin(a, RemoveBothTrace(d1, EXT) + t, [], x);
    }
  }

  lemma LazyShows(d: Disk, unset: bool, torn: Partial, x: Bytes)
    requires !Passes(d[SYS]) && !SameFiles(d[SYS].data, d[RSV].data, unset)
    requires Donor(d).Some? && !EmptyUnprotected(d[Donor(d).value]) && FoundInPrimary(torn, x)
    ensures ShowsPrimary(LazyTrace(d, unset, torn), x)
  {
    hide CheckTrace, RemoveBothTrace, PrimaryTrace, AfterCheck, ShowsPrimary, Passes, CopyBothTrace;
    var e := d[SYS := GONE];
    assert Donor(e) == Donor(d);
    PrimaryShows(e, torn, x);
    var b := RemoveBothTrace(d[SYS := AfterCheck(d[SYS])], SYS);
    ShownWithin(b, PrimaryTrace(e, torn), [], x);
    ShownWithin(CheckTrace(d, SYS), b + PrimaryTrace(e, torn), [], x);
  }

  /** Whatever is found in the primary while a load copies another replica over it, down to nothing at all, is what the
      next load returns as a success if the power fails then: the checksum file has been removed beforehand. */
  lemma CutLoadReturnsPart(d: Disk, unset: bool, torn: Partial, x: Bytes)
    requires !Passes(d[SYS]) && LoadResult(d, unset).0 == NO_ERROR && FoundInPrimary(torn, x)
    ensures exists e :: e in LoadTrace(d, unset, torn) && LoadResult(e, unset) == (NO_ERROR, x)
  {
    hide LazyTrace, LazyDisk, CheckTrace, AfterCheck, Passes, LoadResult, ShowsPrimary, EmptyUnprotected, SameFiles;
    LoadSucceedsIff(d, unset);
    CheckKeeps(d[SYS]);
    var d1 := d[SYS := AfterCheck(d[SYS])];
    assert Donor(d1) == Donor(d);
    NeverHealthy(d[SYS]);
    LazyShows(d1, unset, torn, x);
    var t := LazyTrace(d1, unset, torn);
    var c := CheckTrace(LazyDisk(d1, unset), SYS);
    ShownWithin(CheckTrace(d, SYS), t, c, x);
    ShownLoads(LoadTrace(d, unset, torn), unset, x);
  }

  lemma NeverHealthy(s: Slot)
    ensures !Passes(s) ==> !Passes(AfterCheck(s))
  {
    CheckKeeps(s);
  }

  lemma ShownLoads(t: seq<Disk>, unset: bool, x: Bytes)
    requires ShowsPrimary(t, x)
    ensures exists e :: e in t && LoadResult(e, unset) == (NO_ERROR, x)
  {
    hide LoadResult;
    var e :| e in t && e[SYS] == Slot(Some(x), None);
    PrimaryLoads(e, unset);
  }

  /** A successful load can be cut anywhere without a change of what the next load returns exactly when the primary was
      healthy, so that there was nothing to write. */
  lemma LoadCutSafeIff(d: Disk, unset: bool, torn: Partial)
    requires LoadResult(d, unset).0 == NO_ERROR
    ensures (forall e :: e in LoadTrace(d, unset, torn) ==> LoadResult(e, unset) == LoadResult(d, unset))
            <==> Healthy(d[SYS])
  {
    hide ParseHex, Sum, LoadResult, LazyTrace, LazyDisk;
    SumOfEmpty();
    CheckKeeps(d[SYS]);
    if EmptyUnprotected(d[SYS]) {
      var e := d[SYS := GONE];
      assert e in CheckTrace(d, SYS);
      PrimaryLoads(d, unset);
      NonemptyUnlessPrimary(e, unset);
    } else if !Passes(d[SYS]) {
      CutLoadReturnsPart(d, unset, torn, []);
      NonemptyUnlessPrimary(d, unset);
    }
  }

  /** With an invalid primary no load returns an empty text. */
  lemma NonemptyUnlessPrimary(d: Disk, unset: bool)
    requires !Passes(d[SYS])
    ensures LoadResult(d, unset) != (NO_ERROR, [])
  {
    hide ParseHex, Sum, LoadResult;
    SumOfEmpty();
    LoadSucceedsIff(d, unset);
    if LoadResult(d, unset).0 == NO_ERROR {
      LoadReturnsDonor(d, unset);
    }
  }
}
