/** The settings administrator of settings_adm.cxx: the methods that write, check and repair the files of a setting. */
module SettingsAdm {
  import opened Bytes
  import opened Numerals
  import opened Crc
  import opened SettingsDisk
  import opened SettingsRepair
  import opened SettingsLoad
  import opened SettingsCrash
  import opened SettingsFiles

  /** The index of the attempt that decides a data file: the first that cannot open it or whose contents read back with
      the right checksum, or else the last one allowed. */
  function Tries(a: nat -> Attempt, crc: nat, n: nat): (m: nat)
    requires n <= MAX_TRIES
    ensures n <= m <= MAX_TRIES
    decreases MAX_TRIES - n
  {
    if n == MAX_TRIES || !a(n).opens || Sum(a(n).lands) == crc then n else Tries(a, crc, n + 1)
  }

  /** Eleven attempts at the most; all before the last one could open the file and read back wrong. */
  lemma {:induction false} AttemptsUsed(a: nat -> Attempt, crc: nat, n: nat)
    requires n <= 10
    ensures var m := Tries(a, crc, n);
            && n <= m <= 10 && (forall k :: n <= k < m ==> a(k).opens && Sum(a(k).lands) != crc)
            && (m < 10 ==> !a(m).opens || Sum(a(m).lands) == crc)
    decreases 10 - n
  {
    hide Sum;
    if n < 10 && a(n).opens && Sum(a(n).lands) != crc {
      AttemptsUsed(a, crc, n + 1);
    }
  }

  /** The disk after the attempts on one data file. */
  function DataStored(d: Disk, r: nat, a: nat -> Attempt, crc: nat): Disk
    requires r < FACT
  {
    var n := Tries(a, crc, 0);
    if a(n).opens then With(d, DataFile(r), Some(a(n).lands))
    else if n > 0 then With(d, DataFile(r), Some(a(n - 1).lands))
    else d
  }

  /** Error code and disk after a save that is not cut short. */
  function SavedDisk(d: Disk, json: Bytes, io: Medium): (Error, Disk) {
    var crc := Sum(json);
    var a1, a2 := io.data1(Tries(io.data1, crc, 0)), io.data2(Tries(io.data2, crc, 0));
    var d1 := DataStored(d, SYS, io.data1, crc);
    var d2 := DataStored(d1, EXT, io.data2, crc);
    if !a1.opens then (ERROR, d1)
    else if !a2.opens then (ERROR, d2)
    else if !a1.good then (ERROR, if io.crc1.opens then With(d2, CrcFile(SYS), Some([])) else d2)
    else
      var d3 := if io.crc1.opens then With(d2, CrcFile(SYS), Some(io.crc1.lands)) else d2;
      (NO_ERROR, if io.crc2.opens then With(d3, CrcFile(EXT), Some(io.crc2.lands)) else d3)
  }

  /** The states of the attempts on one data file, from the n-th on. */
  function StoreTrace(d: Disk, f: File, a: nat -> Attempt, crc: nat, n: nat): seq<Disk>
    requires ValidFile(f) && n <= MAX_TRIES
    decreases MAX_TRIES - n
  {
    WriteTrace(d, f, a(n))
    + if n == MAX_TRIES || !a(n).opens || Sum(a(n).lands) == crc then [] else StoreTrace(d, f, a, crc, n + 1)
  }

  /** All states of a save, in order. */
  function SaveTrace(d: Disk, json: Bytes, io: Medium): seq<Disk> {
    var crc := Sum(json);
    var a1, a2 := io.data1(Tries(io.data1, crc, 0)), io.data2(Tries(io.data2, crc, 0));
    var d1 := DataStored(d, SYS, io.data1, crc);
    var d2 := DataStored(d1, EXT, io.data2, crc);
    var d3 := if io.crc1.opens then With(d2, CrcFile(SYS), Some(io.crc1.lands)) else d2;
    var t1, t2 := StoreTrace(d, DataFile(SYS), io.data1, crc, 0), StoreTrace(d1, DataFile(EXT), io.data2, crc, 0);
    if !a1.opens then t1
    else if !a2.opens then t1 + t2
    else if !a1.good then t1 + t2 + WriteTrace(d2, CrcFile(SYS), io.crc1.(during := [], lands := []))
    else t1 + t2 + WriteTrace(d2, CrcFile(SYS), io.crc1) + WriteTrace(d3, CrcFile(EXT), io.crc2)
  }

  lemma RestoreStepAdvances(d: Disk, v: nat, i: nat)
    requires v < FACT && i < FACT && Passes(d[v])
    ensures !Passes(d[i]) ==> RestoreStep(Restored(d, v, i), v, i) == Restored(d, v, i + 1)
    ensures Passes(d[i]) ==> Restored(d, v, i) == Restored(d, v, i + 1)
  {
    hide Passes, AfterCheck;
    CheckKeeps(d[v]);
    assert FailsBelow(d, i + 1) <==> FailsBelow(d, i) || !Passes(d[i]);
    if !Passes(d[i]) {
      forall j | 0 <= j < 5
        ensures RestoreStep(Restored(d, v, i), v, i)[j] == Restored(d, v, i + 1)[j]
      {
      }
    }
  }

  /** One turn of the factory loop; a file that the factory lacks is not copied. */
  lemma FactoryTurn(d: Disk, i: nat)
    requires i < FACT
    ensures var b := FactoryBelow(d, i);
            var b1 := DataCopied(b, FACT, i);
            && b1 == (if b[FACT].data.Some? then With(b, DataFile(i), b[FACT].data) else b)
            && FactoryBelow(d, i + 1) == (if b1[FACT].crc.Some? then With(b1, CrcFile(i), b1[FACT].crc) else b1)
  {
    hide AfterCheck;
  }

  lemma FactoryEnds(d: Disk)
    ensures FactoryBelow(d, 0) == Checked(d) && FactoryBelow(d, FACT) == FactoryRestored(d)
  {
    hide AfterCheck, WithFactory;
  }

  lemma GoneFails()
    ensures !Passes(GONE)
  {
  }

  lemma RestoredNone(d: Disk, v: nat)
    requires v < FACT
    ensures Restored(d, v, 0) == Checked(d)
  {
    hide AfterCheck, Passes;
  }

  class SettingsAdm {
    var disk: Disk

    constructor (d: Disk)
      ensures disk == d
    {
      disk := d;
    }

    method RemoveFile(f: File)
      requires ValidFile(f)
      modifies this
      ensures disk == With(old(disk), f, None)
    {
      disk := With(disk, f, None);
    }

    /** The contents that can be found in the target meanwhile are a parameter. */
    method CopyFile(src: File, dst: File, during: seq<Bytes>) returns (err: Error, ghost trace: seq<Disk>)
      requires ValidFile(src) && ValidFile(dst)
      modifies this
      ensures err == (if Read(old(disk), src).None? then ERROR else NO_ERROR)
      ensures disk == if Read(old(disk), src).None? then old(disk) else With(old(disk), dst, Read(old(disk), src))
      ensures trace == CopyTrace(old(disk), src, dst, during)
    {
      hide With, WriteTrace;
      var x := Read(disk, src);
      if x.None? {
        return ERROR, [];
      }
      var isOpen;
      isOpen, trace := WriteFile(dst, Copying(during, x.value));
      return NO_ERROR, trace;
    }

    method CheckJSONInStorage(r: nat) returns (err: Error, rdata: Bytes, ghost trace: seq<Disk>)
      requires r < 5
      modifies this
      ensures disk == old(disk)[r := AfterCheck(old(disk)[r])]
      ensures err == if Passes(old(disk)[r]) then NO_ERROR else ERROR
      ensures err == NO_ERROR ==> rdata == old(disk)[r].data.value
      ensures trace == CheckTrace(old(disk), r)
    {
      hide ParseHex, Sum;
      SumOfEmpty();
      var crc32cmp := 0;
      rdata := [];
      trace := [];
      var crcfile := Read(disk, CrcFile(r));
      if crcfile.Some? {
        crc32cmp := ParseHex(crcfile.value);
        if crc32cmp == 0 {
          RemoveFile(CrcFile(r));
          trace := [disk];
          RemoveFile(DataFile(r));
          trace := trace + [disk];
          return ERROR, rdata, trace;
        }
      }
      var fil := Read(disk, DataFile(r));
      if fil.Some? {
        rdata := fil.value;
        if |rdata| == 0 {
          RemoveFile(DataFile(r));
          trace := [disk];
        }
        var crc32 := Sum(rdata);
        if crc32 == crc32cmp || crc32cmp == 0 {
          return NO_ERROR, rdata, trace;
        }
      }
      return ERROR, rdata, trace;
    }

    /** Restores replica i from replica v. */
    method RestoreOne(v: nat, i: nat, torn: Partial) returns (ghost trace: seq<Disk>)
      requires v < FACT && i < FACT
      modifies this
      ensures disk == RestoreStep(old(disk), v, i) && trace == TurnTrace(old(disk), v, i, torn)
    {
      hide CopyTrace;
      var e;
      e, trace := CopyFile(DataFile(v), DataFile(i), torn(DataFile(i)));
      ghost var d1 := disk;
      assert d1 == DataCopied(old(disk), v, i);
      var lst := Read(disk, CrcFile(v));
      ghost var t := [];
      if lst.Some? {
        if |lst.value| == 0 {
          RemoveFile(CrcFile(v));
          t := [disk];
        } else {
          e, t := CopyFile(CrcFile(v), CrcFile(i), torn(CrcFile(i)));
        }
      } else {
        var j := 0;
        while j < FACT
          invariant 0 <= j <= FACT
          invariant disk == RemovedBelow(d1, j) && t == RemovalTrace(d1, j)
        {
          RemoveFile(CrcFile(j));
          assert disk == RemovedBelow(d1, j + 1);
          t := t + [disk];
          j := j + 1;
        }
      }
      trace := trace + t;
    }

    /** The restoring loop: every replica that failed is restored from replica v. */
    method RestoreFailing(v: nat, check: array<Error>, torn: Partial, ghost d: Disk) returns (ghost trace: seq<Disk>)
      requires v < FACT && Passes(d[v]) && check.Length == FACT && disk == Checked(d)
      requires forall k :: 0 <= k < FACT ==> check[k] == if Passes(d[k]) then NO_ERROR else ERROR
      modifies this
      ensures disk == Restored(d, v, FACT) && trace == TurnsTrace(d, v, FACT, torn)
    {
      hide AfterCheck, Passes, RestoreStep, Restored, TurnTrace, Checked;
      RestoredNone(d, v);
      trace := [];
      var i := 0;
      while i < FACT
        invariant 0 <= i <= FACT
        invariant disk == Restored(d, v, i) && trace == TurnsTrace(d, v, i, torn)
      {
        RestoreStepAdvances(d, v, i);
        if check[i] == ERROR {
          var t := RestoreOne(v, i, torn);
          trace := trace + t;
        }
        i := i + 1;
      }
    }

    /** The loop that copies the factory files over all four replicas. */
    method CopyFactory(torn: Partial, ghost d: Disk) returns (ghost trace: seq<Disk>)
      requires disk == Checked(d)
      modifies this
      ensures disk == FactoryRestored(d) && trace == FactoryTrace(d, FACT, torn)
    {
      hide AfterCheck, Checked, CopyTrace, FactoryBelow, FactoryRestored, With, DataCopied;
      FactoryEnds(d);
      trace := [];
      var i := 0;
      while i < FACT
        invariant 0 <= i <= FACT
        invariant disk == FactoryBelow(d, i) && trace == FactoryTrace(d, i, torn)
      {
        FactoryTurn(d, i);
        var _, t := CopyFile(DataFile(FACT), DataFile(i), torn(DataFile(i)));
        var _, u := CopyFile(CrcFile(FACT), CrcFile(i), torn(CrcFile(i)));
        trace := trace + (t + u);
        i := i + 1;
      }
    }

    /** The full repair.  The trace shows every state in which a power cut can leave the disk. */
    method SyncGsetOneSetting4x4(torn: Partial) returns (err: Error, ghost trace: seq<Disk>)
      modifies this
      ensures disk == Repaired(old(disk)) && err == RepairError(old(disk))
      ensures trace == RepairTrace(old(disk), torn)
    {
      hide AfterCheck, Passes, Restored, CheckTrace, TurnsTrace, FactoryTrace, FactoryRestored;
      ghost var d := disk;
      trace := [];
      var check := new Error[4](_ => ERROR);
      var checkedItem := 0xff;
      var i := 0;
      while i < FACT
        invariant 0 <= i <= FACT
        invariant disk == CheckedBelow(d, i) && trace == ChecksTrace(d, i)
        invariant forall k :: 0 <= k < i ==> check[k] == if Passes(d[k]) then NO_ERROR else ERROR
        invariant checkedItem == 0xff <==> forall k :: 0 <= k < i ==> !Passes(d[k])
        invariant checkedItem != 0xff ==>
          checkedItem < i && Passes(d[checkedItem]) && forall k :: 0 <= k < checkedItem ==> !Passes(d[k])
      {
        var e, _, t := CheckJSONInStorage(i);
        trace := trace + t;
        check[i] := e;
        if check[i] == NO_ERROR && checkedItem == 0xff {
          checkedItem := i;
        }
        i := i + 1;
      }
      assert disk == Checked(d);
      if checkedItem != 0xff {
        assert FirstPassing(d) == Some(checkedItem);
        var t := RestoreFailing(checkedItem, check, torn, d);
        trace := trace + t;
      } else {
        assert FirstPassing(d) == None;
        var t := CopyFactory(torn, d);
        var e, _, u := CheckJSONInStorage(SYS);
        trace := trace + (t + u);
        if e == ERROR {
          return ERROR, trace;
        }
      }
      return NO_ERROR, trace;
    }

    /** Nonempty files with the same contents.  If both are absent, the outcome is that of comparing unset buffers. */
    method EqualFiles(f: File, g: File, unset: bool) returns (err: Error)
      requires ValidFile(f) && ValidFile(g)
      ensures err == NO_ERROR <==> SameFiles(Read(disk, f), Read(disk, g), unset)
    {
      var a, b := Read(disk, f), Read(disk, g);
      if a.None? && b.None? {
        return if unset then NO_ERROR else ERROR;
      }
      if a.None? || b.None? || |a.value| != |b.value| {
        return ERROR;
      }
      if |a.value| == 0 {
        return ERROR;
      }
      var n := 0;
      while n < |a.value|
        invariant 0 <= n <= |a.value| == |b.value|
        invariant a.value[..n] == b.value[..n]
      {
        if a.value[n] != b.value[n] {
          return ERROR;
        }
        n := n + 1;
      }
      assert a.value[..n] == a.value && b.value[..n] == b.value;
      return NO_ERROR;
    }

    method RemoveBoth(r: nat) returns (ghost trace: seq<Disk>)
      requires r < 5
      modifies this
      ensures disk == old(disk)[r := GONE] && trace == RemoveBothTrace(old(disk), r)
    {
      RemoveFile(DataFile(r));
      trace := [disk];
      RemoveFile(CrcFile(r));
      trace := trace + [disk];
    }

    method CopyBoth(r: nat, i: nat, torn: Partial) returns (ghost trace: seq<Disk>)
      requires r < 5 && i < 5 && r != i
      modifies this
      ensures disk == old(disk)[i := Over(old(disk)[r], old(disk)[i])]
      ensures trace == CopyBothTrace(old(disk), r, i, torn)
    {
      hide CopyTrace;
      var _, t := CopyFile(DataFile(r), DataFile(i), torn(DataFile(i)));
      var _, u := CopyFile(CrcFile(r), CrcFile(i), torn(CrcFile(i)));
      trace := t + u;
    }

    /** With all replicas gone: the factory copy over all of them. */
    method RestoreFactory(torn: Partial) returns (ghost trace: seq<Disk>)
      requires forall r :: 0 <= r < FACT ==> disk[r] == GONE
      modifies this
      ensures var f := old(disk)[FACT];
              disk == [if Passes(f) then AfterCheck(f) else GONE, f, f, f, f]
      ensures trace == LazyFactoryTrace(old(disk), torn)
    {
      hide AfterCheck, Passes, CopyBothTrace, CheckTrace, RemoveBothTrace;
      trace := CopyBoth(FACT, SYS, torn);
      var t := CopyBoth(FACT, RSV, torn);
      trace := trace + t;
      t := CopyBoth(FACT, EXT, torn);
      trace := trace + t;
      t := CopyBoth(FACT, EXT_RSV, torn);
      trace := trace + t;
      var e, rdata;
      e, rdata, t := CheckJSONInStorage(SYS);
      trace := trace + t;
      if e == ERROR {
        t := RemoveBoth(SYS);
        trace := trace + t;
      }
    }

    /** With the primary gone: the first other replica that passes, or else the factory copy, takes its place. */
    method RestorePrimary(torn: Partial) returns (ghost trace: seq<Disk>)
      requires disk[SYS] == GONE
      modifies this
      ensures disk == PrimaryRestored(old(disk)) && trace == PrimaryTrace(old(disk), torn)
    {
      hide AfterCheck, Passes, CopyBothTrace, CheckTrace, RemoveBothTrace, FromReserveTrace;
      var e, rdata, t := CheckJSONInStorage(EXT);
      trace := t;
      if e == ERROR {
        GoneFails();
        t := RemoveBoth(EXT);
        assert disk == old(disk)[EXT := GONE];
        ghost var u := RestoreFromReserve(torn);
        trace := trace + (t + u);
      } else {
        t := CopyBoth(EXT, SYS, torn);
        trace := trace + t;
      }
    }

    /** With the extended replica gone as well: the reserve is next. */
    method RestoreFromReserve(torn: Partial) returns (ghost trace: seq<Disk>)
      requires disk[SYS] == GONE && disk[EXT] == GONE
      modifies this
      ensures disk == PrimaryRestored(old(disk)) && trace == FromReserveTrace(old(disk), torn)
    {
      hide AfterCheck, Passes, CopyBothTrace, CheckTrace, RemoveBothTrace, FromExtReserveTrace;
      GoneFails();
      var e, rdata, t := CheckJSONInStorage(RSV);
      trace := t;
      ghost var u;
      if e == ERROR {
        t := RemoveBoth(RSV);
        assert disk == old(disk)[RSV := GONE];
        u := RestoreFromExtReserve(torn);
        trace := trace + (t + u);
      } else {
        t := CopyBoth(RSV, SYS, torn);
        u := CopyBoth(EXT_RSV, EXT, torn);
        trace := trace + (t + u);
      }
    }

    /** With the reserve gone too: the extended reserve, and then the factory copy. */
    method RestoreFromExtReserve(torn: Partial) returns (ghost trace: seq<Disk>)
      requires disk[SYS] == GONE && disk[EXT] == GONE && disk[RSV] == GONE
      modifies this
      ensures disk == PrimaryRestored(old(disk)) && trace == FromExtReserveTrace(old(disk), torn)
    {
      hide AfterCheck, Passes, CopyBothTrace, CheckTrace, RemoveBothTrace, LazyFactoryTrace;
      GoneFails();
      var e, rdata, t := CheckJSONInStorage(EXT_RSV);
      trace := t;
      ghost var u;
      if e == ERROR {
        t := RemoveBoth(EXT_RSV);
        assert disk == old(disk)[EXT_RSV := GONE];
        u := RestoreFactory(torn);
        trace := trace + (t + u);
      } else {
        t := CopyBoth(EXT_RSV, SYS, torn);
        u := CopyBoth(EXT_RSV, EXT, torn);
        t := t + u;
        u := CopyBoth(EXT_RSV, RSV, torn);
        trace := trace + (t + u);
      }
    }

    method SyncGsetOneSettingLazy(unset: bool, torn: Partial) returns (ghost trace: seq<Disk>)
      modifies this
      ensures disk == LazyDisk(old(disk), unset) && trace == LazyTrace(old(disk), unset, torn)
    {
      hide AfterCheck, Passes, CopyBothTrace, CheckTrace, RemoveBothTrace, PrimaryTrace;
      var same := EqualFiles(DataFile(SYS), DataFile(RSV), unset);
      if same == NO_ERROR {
        return [];
      }
      var e, rdata, t := CheckJSONInStorage(SYS);
      trace := t;
      if e == ERROR {
        t := RemoveBoth(SYS);
        assert disk == old(disk)[SYS := GONE];
        ghost var u := RestorePrimary(torn);
        trace := trace + (t + u);
      } else {
        t := CopyBoth(SYS, RSV, torn);
        trace := trace + t;
      }
    }

    /** The trace shows every state in which a power cut can leave the disk. */
    method LoadSetting(unset: bool, torn: Partial) returns (err: Error, result: Bytes, ghost trace: seq<Disk>)
      modifies this
      ensures (err, result) == LoadResult(old(disk), unset)
      ensures disk == LoadDisk(old(disk), unset) && trace == LoadTrace(old(disk), unset, torn)
    {
      hide AfterCheck, Passes, LazyDisk, CheckTrace, LazyTrace;
      var e, rdata, t := CheckJSONInStorage(SYS);
      trace := t;
      if e == NO_ERROR {
        return NO_ERROR, rdata, trace;
      }
      ghost var u := SyncGsetOneSettingLazy(unset, torn);
      e, rdata, t := CheckJSONInStorage(SYS);
      trace := trace + (u + t);
      if e == ERROR {
        return ERROR, EMPTY_OBJECT, trace;
      }
      return NO_ERROR, rdata, trace;
    }

    method CheckSaved(f: File, crc32: nat) returns (err: Error)
      requires ValidFile(f)
      ensures err == NO_ERROR <==> crc32 == (if Read(disk, f).Some? then Sum(Read(disk, f).value) else 0)
    {
      var ncrc32 := 0;
      var file := Read(disk, f);
      if file.Some? {
        ncrc32 := Sum(file.value);
      }
      if crc32 != ncrc32 {
        return ERROR;
      } else {
        return NO_ERROR;
      }
    }

    /** Opens a file, which empties it, and writes it; the trace shows every state the disk goes through. */
    method WriteFile(f: File, a: Attempt) returns (isOpen: bool, ghost trace: seq<Disk>)
      requires ValidFile(f)
      modifies this
      ensures isOpen == a.opens && trace == WriteTrace(old(disk), f, a)
      ensures disk == if isOpen then With(old(disk), f, Some(a.lands)) else old(disk)
    {
      hide With;
      ghost var d0 := disk;
      trace := [];
      if !a.opens {
        return false, trace;
      }
      disk := With(disk, f, Some([]));
      trace := [disk];
      var i := 0;
      while i < |a.during|
        invariant 0 <= i <= |a.during|
        invariant exists x :: disk == With(d0, f, Some(x))
        invariant trace == [With(d0, f, Some([]))] + seq(i, k requires 0 <= k < i => With(d0, f, Some(a.during[k])))
      {
        WithOver(d0, disk, f, a.during[i]);
        disk := With(disk, f, Some(a.during[i]));
        trace := trace + [disk];
        i := i + 1;
      }
      WithOver(d0, disk, f, a.lands);
      disk := With(disk, f, Some(a.lands));
      trace := trace + [disk];
      return true, trace;
    }

    /** Writes one data file, reading it back, until its checksum is right or the attempts are used up. */
    method StoreData(r: nat, crc32: nat, a: nat -> Attempt) returns (isOpen: bool, good: bool, ghost trace: seq<Disk>)
      requires r < FACT
      modifies this
      ensures disk == DataStored(old(disk), r, a, crc32) && trace == StoreTrace(old(disk), DataFile(r), a, crc32, 0)
      ensures isOpen == a(Tries(a, crc32, 0)).opens && (isOpen ==> good == a(Tries(a, crc32, 0)).good)
    {
      hide Sum, With, WriteTrace, StoreTrace;
      ghost var d0, f := disk, DataFile(r);
      trace := [];
      good := true;
      var saverCntr := 0;
      while true
        invariant 0 <= saverCntr <= MAX_TRIES
        invariant Tries(a, crc32, saverCntr) == Tries(a, crc32, 0)
        invariant disk == if saverCntr == 0 then d0 else With(d0, f, Some(a(saverCntr - 1).lands))
        invariant trace + StoreTrace(d0, f, a, crc32, saverCntr) == StoreTrace(d0, f, a, crc32, 0)
        decreases MAX_TRIES - saverCntr
      {
        StoreTraceStep(d0, f, a, crc32, saverCntr);
        ghost var before := disk;
        ghost var t;
        isOpen, t := WriteFile(DataFile(r), a(saverCntr));
        if !isOpen {
          assert trace + [] == trace;
          return;
        }
        good := a(saverCntr).good;
        if saverCntr > 0 {
          WriteTraceOver(d0, f, a(saverCntr - 1).lands, a(saverCntr));
          WithTwice(d0, f, Some(a(saverCntr - 1).lands), Some(a(saverCntr).lands));
        }
        Regrouped(trace, t, StoreTrace(d0, f, a, crc32, saverCntr)[|t|..]);
        trace := trace + t;
        WithReads(d0, f, Some(a(saverCntr).lands));
        saverCntr := saverCntr + 1;
        if saverCntr > MAX_TRIES {
          break;
        }
        var e := CheckSaved(DataFile(r), crc32);
        if e == NO_ERROR {
          break;
        }
      }
    }

    /** Saves a value to the primary and the extended replica.  The trace shows every state in which a power cut can
        leave the disk.  As in the source, the stream tested after a checksum file has been opened is the one of the
        primary's data file. */
    method SaveSetting(json: Bytes, io: Medium) returns (err: Error, ghost trace: seq<Disk>)
      modifies this
      ensures (err, disk) == SavedDisk(old(disk), json, io)
      ensures trace == SaveTrace(old(disk), json, io)
    {
      hide Sum, Tries, With, WriteTrace, StoreTrace;
      var crc32 := Sum(json);
      var isOpen: bool, good1: bool, good2: bool;
      isOpen, good1, trace := StoreData(SYS, crc32, io.data1);
      if !isOpen {
        return ERROR, trace;
      }
      ghost var t;
      isOpen, good2, t := StoreData(EXT, crc32, io.data2);
      trace := trace + t;
      if !isOpen {
        return ERROR, trace;
      }
      if !good1 {
        isOpen, t := WriteFile(CrcFile(SYS), io.crc1.(during := [], lands := []));
        trace := trace + t;
        return ERROR, trace;
      }
      isOpen, t := WriteFile(CrcFile(SYS), io.crc1);
      trace := trace + t;
      isOpen, t := WriteFile(CrcFile(EXT), io.crc2);
      trace := trace + t;
      return NO_ERROR, trace;
    }
  }

  // ---------------------------------------------------------------------------------------------
  // The states of a write

  lemma Regrouped<T>(a: seq<T>, b: seq<T>, c: seq<T>)
    ensures a + b + c == a + (b + c) && a + [] == a && b + [] == b
    ensures (b + c)[|b|..] == c
  {
  }

  lemma StoreTraceStep(d: Disk, f: File, a: nat -> Attempt, crc: nat, n: nat)
    requires ValidFile(f) && n <= MAX_TRIES
    ensures StoreTrace(d, f, a, crc, n)
         == WriteTrace(d, f, a(n))
            + if n == MAX_TRIES || !a(n).opens || Sum(a(n).lands) == crc then [] else StoreTrace(d, f, a, crc, n + 1)
    ensures !a(n).opens ==> WriteTrace(d, f, a(n)) == []
  {
  }

  // ---------------------------------------------------------------------------------------------
  // Every state of a save is one that the crash theorem speaks of

  lemma {:induction false} StoreTraceShows(d: Disk, f: File, a: nat -> Attempt, crc: nat, n: nat, e: Disk)
    requires ValidFile(f) && n <= MAX_TRIES && e in StoreTrace(d, f, a, crc, n)
    ensures exists x :: AppearsIn(a, x) && e == With(d, f, Some(x))
    decreases MAX_TRIES - n
  {
    hide With, WriteTrace, StoreTrace, Appears, Sum;
    StoreTraceStep(d, f, a, crc, n);
    if e in WriteTrace(d, f, a(n)) {
      WriteTraceShows(d, f, a(n), e);
    } else {
      StoreTraceShows(d, f, a, crc, n + 1, e);
    }
  }

  /** The states of a save, and the disk before it and after it, are all touched disks. */
  lemma SaveTraceTouched(d0: Disk, json: Bytes, io: Medium, d: Disk)
    requires d == d0 || d in SaveTrace(d0, json, io) || d == SavedDisk(d0, json, io).1
    ensures Touched(d0, d, io)
  {
    hide Sum, Tries, With, WriteTrace, StoreTrace, DataStored, DataTouched, CrcTouched;
    var crc := Sum(json);
    var d1 := DataStored(d0, SYS, io.data1, crc);
    var d2 := DataStored(d1, EXT, io.data2, crc);
    var d3 := if io.crc1.opens then With(d2, CrcFile(SYS), Some(io.crc1.lands)) else d2;
    var c1 := io.crc1.(during := [], lands := []);
    SysStates(d0, io, crc, d);
    ExtStates(d0, d1, io, crc, d);
    CrcStates(d0, d2, io, CrcFile(SYS), c1, d);
    CrcStates(d0, d2, io, CrcFile(SYS), io.crc1, d);
    CrcStates(d0, d3, io, CrcFile(EXT), io.crc2, d);
    NothingTouched(d0, io);
  }

  lemma NothingTouched(d0: Disk, io: Medium)
    ensures Touched(d0, d0, io)
  {
  }

  lemma SysStates(d0: Disk, io: Medium, crc: nat, d: Disk)
    ensures d in StoreTrace(d0, DataFile(SYS), io.data1, crc, 0) ==> Touched(d0, d, io)
    ensures var d1 := DataStored(d0, SYS, io.data1, crc);
            Touched(d0, d1, io) && d1[EXT] == d0[EXT] && d1[SYS].crc == d0[SYS].crc
  {
    hide Tries, StoreTrace, AppearsIn, DataStored;
    DataStoredTouched(d0, SYS, io.data1, crc);
    if d in StoreTrace(d0, DataFile(SYS), io.data1, crc, 0) {
      StoreTraceShows(d0, DataFile(SYS), io.data1, crc, 0, d);
    }
  }

  lemma ExtStates(d0: Disk, d1: Disk, io: Medium, crc: nat, d: Disk)
    requires Touched(d0, d1, io) && d1[EXT] == d0[EXT] && d1[SYS].crc == d0[SYS].crc
    ensures d in StoreTrace(d1, DataFile(EXT), io.data2, crc, 0) ==> Touched(d0, d, io)
    ensures var d2 := DataStored(d1, EXT, io.data2, crc);
            Touched(d0, d2, io) && d2[EXT].crc == d0[EXT].crc && d2[SYS].crc == d0[SYS].crc
  {
    hide Tries, StoreTrace, AppearsIn, DataStored;
    DataStoredTouched(d1, EXT, io.data2, crc);
    if d in StoreTrace(d1, DataFile(EXT), io.data2, crc, 0) {
      StoreTraceShows(d1, DataFile(EXT), io.data2, crc, 0, d);
    }
  }

  /** The states of writing a checksum file, or of only emptying it. */
  lemma CrcStates(d0: Disk, before: Disk, io: Medium, f: File, a: Attempt, d: Disk)
    requires Touched(d0, before, io)
    requires (f == CrcFile(SYS) && (a == io.crc1 || a == io.crc1.(during := [], lands := [])))
          || (f == CrcFile(EXT) && a == io.crc2)
    ensures d in WriteTrace(before, f, a) ==> Touched(d0, d, io)
    ensures Touched(d0, With(before, f, Some(a.lands)), io)
  {
    hide DataTouched, WriteTrace;
    if d in WriteTrace(before, f, a) {
      WriteTraceShows(before, f, a, d);
    }
  }

  /** A power cut at any point of a save, at its beginning and at its end included: the repair then makes all four
      replicas healthy, each with the complete new value or one that some replica held before. */
  lemma CutSaveIsRepaired(d0: Disk, json: Bytes, io: Medium, d: Disk)
    requires Protected(d0) && NoCollision(d0, json, io)
    requires d == d0 || d in SaveTrace(d0, json, io) || d == SavedDisk(d0, json, io).1
    ensures AllHealthy(Repaired(d))
    ensures forall r :: 0 <= r < FACT ==>
              Repaired(d)[r].data.Some? && (Repaired(d)[r].data.value == json || HeldBefore(d0, Repaired(d)[r].data.value))
  {
    hide *;
    SaveTraceTouched(d0, json, io, d);
    SaveIsCrashSafe(d0, json, io, d);
  }

  lemma DataStoredTouched(d: Disk, r: nat, a: nat -> Attempt, crc32: nat)
    requires r < FACT
    ensures DataTouched(d[r].data, a, DataStored(d, r, a, crc32)[r].data)
    ensures DataStored(d, r, a, crc32) == d[r := d[r].(data := DataStored(d, r, a, crc32)[r].data)]
  {
    hide Tries;
    var n := Tries(a, crc32, 0);
    assert Appears(a(n), a(n).lands);
    if n > 0 {
      assert Appears(a(n - 1), a(n - 1).lands);
    }
  }

  // ---------------------------------------------------------------------------------------------
  // What a completed save is worth

  /** The medium writes the data files faithfully at the first attempt. */
  predicate DataFaithful(json: Bytes, io: Medium) {
    var a, b := io.data1(0), io.data2(0);
    a.opens && a.good && a.lands == json && b.opens && b.good && b.lands == json
  }

  /** The checksum a replica shows after the save. */
  function ShownAfter(d0: Slot, c: Attempt): nat
    requires d0.crc.Some?
  {
    if c.opens then ParseHex(c.lands) else ParseHex(d0.crc.value)
  }

  /** A save over a protected disk whose data files were written faithfully reports success in any case; nothing in the
      code notices a checksum file that could not be opened.  Exactly when is the new value what is loaded next: when
      its checksum is not zero and the checksum file of the primary came out right or, over a reserve with another
      value, that of the extended replica.  Over a reserve that holds the very value the lazy repair sees no need to
      act, so that the load fails unless the primary's checksum file is right or reads as zero. */
  lemma SaveTakesEffectIff(d0: Disk, json: Bytes, io: Medium, unset: bool)
    requires Protected(d0) && DataFaithful(json, io)
    ensures var (err, d) := SavedDisk(d0, json, io);
            var shown1, shown2 := ShownAfter(d0[SYS], io.crc1), ShownAfter(d0[EXT], io.crc2);
            && err == NO_ERROR
            && (LoadResult(d, unset) == (NO_ERROR, json) <==>
                  Sum(json) != 0
                  && (shown1 == Sum(json)
                      || if d0[RSV].data == Some(json) then shown1 == 0 else shown2 == Sum(json)))
            && (LoadResult(d, unset).0 == NO_ERROR <==>
                  d0[RSV].data != Some(json) || shown1 == 0 || shown1 == Sum(json))
            && (LoadResult(d, unset).0 == NO_ERROR ==>
                  LoadResult(d, unset).1 == json || LoadResult(d, unset).1 == d0[RSV].data.value)
  {
    hide ParseHex, Sum;
    SumOfEmpty();
    FaithfulTries(json, io);
  }

  /** A medium that does everything right but open the checksum file of the primary. */
  function NoPrimaryChecksum(json: Bytes): Medium {
    var data := Attempt(true, [], json, true);
    Medium(_ => data, _ => data, Attempt(false, [], [], false), Attempt(true, [], PrintHex(Sum(json), 8), true))
  }

  /** Saving a value back that the reserve still holds, while the checksum file of the primary cannot be opened: the
      save reports success, the extended replica is complete and right, and the setting can no longer be loaded. */
  lemma SavingBackBlocksLoading(current: Bytes, json: Bytes, unset: bool)
    requires Sum(current) != 0 && Sum(json) != 0 && Sum(current) != Sum(json)
    ensures var d0 := DiskOf(Whole(current), Whole(current), Whole(json), Whole(json), GONE);
            var (err, d) := SavedDisk(d0, json, NoPrimaryChecksum(json));
            Protected(d0) && err == NO_ERROR && d[EXT] == Whole(json) && LoadResult(d, unset).0 == ERROR
  {
    hide ParseHex, Sum, PrintHex, LoadResult;
    ParsePrinted(Sum(current));
    ParsePrinted(Sum(json));
    SumOfEmpty();
    var d0 := DiskOf(Whole(current), Whole(current), Whole(json), Whole(json), GONE);
    FaithfulTries(json, NoPrimaryChecksum(json));
    assert Protected(d0) by {
      assert Healthy(Whole(current)) && Healthy(Whole(json));
    }
    SaveTakesEffectIff(d0, json, NoPrimaryChecksum(json), unset);
  }

  lemma FaithfulTries(json: Bytes, io: Medium)
    requires DataFaithful(json, io)
    ensures Tries(io.data1, Sum(json), 0) == 0 && Tries(io.data2, Sum(json), 0) == 0
  {
    hide Sum;
  }

  /** With a faithful medium: what was saved is what is loaded, for every value whose checksum is not zero, and only
      for those. */
  lemma SaveThenLoad(d0: Disk, json: Bytes, io: Medium, unset: bool)
    requires Protected(d0) && DataFaithful(json, io)
    requires io.crc1.opens && io.crc1.lands == PrintHex(Sum(json), 8)
    requires io.crc2.opens && io.crc2.lands == PrintHex(Sum(json), 8)
    ensures LoadResult(SavedDisk(d0, json, io).1, unset) == (NO_ERROR, json) <==> Sum(json) != 0
  {
    hide ParseHex, Sum, PrintHex, SavedDisk, LoadResult;
    ParsePrinted(Sum(json));
    SaveTakesEffectIff(d0, json, io, unset);
  }

  /** Loading straight after a power cut, without the full repair: it succeeds exactly when the primary passes or differs
      from its reserve, and what it returns is complete. */
  lemma LoadAfterCrash(d0: Disk, json: Bytes, io: Medium, d: Disk, unset: bool)
    requires Protected(d0) && NoCollision(d0, json, io) && Touched(d0, d, io)
    ensures LoadResult(d, unset).0 == NO_ERROR <==> Passes(d[SYS]) || AfterCheck(d[SYS]).data != d[RSV].data
    ensures LoadResult(d, unset).0 == NO_ERROR ==> LoadResult(d, unset).1 == json || HeldBefore(d0, LoadResult(d, unset).1)
  {
    hide ParseHex, Sum, Passes, Healthy, EmptyUnprotected, DataTouched, CrcTouched, AppearsIn, ShownBy, LoadResult, AfterCheck;
    var held := (x: Bytes) => HeldBefore(d0, x);
    assert held(d0[SYS].data.value) && held(d0[EXT].data.value) by { ProtectedIsHeld(d0); }
    TornIsRejected(d0[SYS], json, io.data1, io.crc1, d[SYS], held);
    TornIsRejected(d0[EXT], json, io.data2, io.crc2, d[EXT], held);
    HealthyPasses(d[SYS]);
    HealthyPasses(d[EXT]);
    HealthyPasses(d[RSV]);
    LoadSucceedsIff(d, unset);
    HealthyNotEmpty(d[RSV]);
    if LoadResult(d, unset).0 == NO_ERROR {
      if Passes(d[SYS]) {
        assert LoadResult(d, unset).1 == d[SYS].data.value by { PrimaryLoads(d, unset); }
      } else {
        LoadReturnsDonor(d, unset);
      }
    }
  }

  lemma HealthyNotEmpty(s: Slot)
    ensures Healthy(s) ==> s.data.Some? && s.data.value != []
  {
  }
}
