/** Named message queues shared by all threads (fifo.cxx).  Every method is one section under the common mutex. */
module FifoEngine {
  import opened Bytes
  import opened Buffers
  import opened FifoQueues
  import opened FifoLetters
  import opened MemAdmin

  /** New names get empty queues; what is there already stays as it is. */
  function WithNames(qs: Queues, names: seq<string>): Queues {
    map n | n in qs.Keys + (set m | m in names) :: if n in qs then qs[n] else []
  }

  lemma WithOneMore(qs: Queues, names: seq<string>, i: nat)
    requires i < |names|
    ensures WithNames(qs, names[..i + 1])
         == if names[i] in WithNames(qs, names[..i]) then WithNames(qs, names[..i])
            else WithNames(qs, names[..i])[names[i] := []]
  {
    assert names[..i + 1] == names[..i] + [names[i]];
  }

  lemma WithEnds(qs: Queues, names: seq<string>)
    ensures WithNames(qs, names[..0]) == qs && WithNames(qs, names[..|names|]) == WithNames(qs, names)
  {
    assert names[..|names|] == names;
  }

  /** A multicast that has yet to serve the names in rest. */
  function PartlySent(qs: Queues, rest: set<string>, sender: string, m: Bytes): Queues {
    map n | n in qs :: if n !in rest && n != sender then Push(qs[n], m) else qs[n]
  }

  lemma PartlySentEnds(qs: Queues, sender: string, m: Bytes)
    ensures PartlySent(qs, qs.Keys, sender, m) == qs
    ensures PartlySent(qs, {}, sender, m) == Step(qs, Mcast(sender, m))
  {
  }

  lemma PartlySentStep(qs: Queues, rest: set<string>, sender: string, m: Bytes, n: string)
    requires n in rest && n in qs
    ensures var p := PartlySent(qs, rest, sender, m);
            n in p && PartlySent(qs, rest - {n}, sender, m) == if n != sender then p[n := Push(p[n], m)] else p
  {
    hide Push;
  }

  lemma HasOtherNone(name: string)
    ensures !HasOther({}, name)
  {
  }

  /** Twice the length plus room for the header suffices for exactly the lengths for which it does not wrap round. */
  lemma SizeWraps(n: U32)
    ensures var size := Wrap((n + 3) * 2);
            n <= 0x7FFF_FFFC <==> n <= size && n + 2 <= size - n
  {
  }

  predicate HasOther(names: set<string>, name: string) {
    exists n :: n in names && n != name
  }

  lemma HasOtherStep(all: set<string>, rest: set<string>, n: string, name: string)
    requires n in rest && rest <= all
    ensures HasOther(all - (rest - {n}), name) == (HasOther(all - rest, name) || n != name)
  {
    assert n in all - (rest - {n});
    if HasOther(all - rest, name) {
      var k :| k in all - rest && k != name;
      assert k in all - (rest - {n});
    }
    if HasOther(all - (rest - {n}), name) {
      var k :| k in all - (rest - {n}) && k != name;
      assert k in all - rest || k == n;
    }
  }

  /** The table of queues. */
  class FifoT {
    var items: map<string, FragFifo>

    ghost predicate Valid()
      reads this, items.Values
    {
      && (forall n :: n in items ==> items[n].Valid() && items[n].Exact())
      && (forall n, m :: n in items && m in items && n != m ==> items[n] != items[m])
    }

    ghost function Queues(): (qs: Queues)
      requires Valid()
      reads this, items.Values
      ensures qs.Keys == items.Keys
    {
      map n | n in items :: items[n].Unread()
    }

    constructor ()
      ensures Valid() && Queues() == map[]
    {
      items := map[];
    }

    /** Adds an empty queue, unless the name is taken. */
    method Add(name: string)
      requires Valid()
      modifies this
      ensures Valid() && (forall n :: n in old(items) ==> n in items && items[n] == old(items[n]))
      ensures Queues() == if name in old(items) then old(Queues()) else old(Queues())[name := []]
    {
      hide TotalSize;
      if name !in items {
        var fifo := new FragFifo();
        items := items[name := fifo];
      }
    }

    method AddAll(names: seq<string>)
      requires Valid()
      modifies this
      ensures Valid() && Queues() == WithNames(old(Queues()), names)
    {
      hide *;
      ghost var was := Queues();
      WithEnds(was, names);
      for i := 0 to |names|
        invariant Valid() && Queues() == WithNames(was, names[..i])
      {
        WithOneMore(was, names, i);
        Add(names[i]);
      }
    }

    method PushTo(name: string, src: array<Byte>, at: nat, size: U32)
      requires Valid() && name in items && at + size <= src.Length && size < TWO32 - QCOUNT_MAX_SIZE
      modifies items[name]
      ensures Valid() && items == old(items)
      ensures Queues() == old(Queues())[name := Push(old(Queues())[name], src[at..at + size])]
    {
      hide Push, TotalSize;
      var _ := items[name].PushBuf(src, at, size);
    }

    /** The loop of a multicast over all queues. */
    method PushToOthers(sender: string, src: array<Byte>, at: nat, size: U32) returns (trig: bool)
      requires Valid() && at + size <= src.Length && size < TWO32 - QCOUNT_MAX_SIZE
      modifies items.Values
      ensures Valid() && items == old(items) && trig == HasOther(items.Keys, sender)
      ensures Queues() == Step(old(Queues()), Mcast(sender, src[at..at + size]))
    {
      hide *;
      trig := false;
      ghost var was, m := Queues(), src[at..at + size];
      var rest := items.Keys;
      PartlySentEnds(was, sender, m);
      HasOtherNone(sender);
      assert items.Keys - rest == {};
      while rest != {}
        invariant rest <= items.Keys && trig == HasOther(items.Keys - rest, sender)
        invariant Valid() && items == old(items) && src[at..at + size] == m
        invariant Queues() == PartlySent(was, rest, sender, m)
        decreases rest
      {
        var n :| n in rest;
        PartlySentStep(was, rest, sender, m, n);
        HasOtherStep(items.Keys, rest, n, sender);
        if n != sender {
          PushTo(n, src, at, size);
          trig := true;
        }
        rest := rest - {n};
      }
      assert items.Keys - {} == items.Keys;
    }

    method PopFrom(name: string) returns (buf: Option<Bytes>)
      requires Valid() && name in items
      modifies items[name]
      ensures Valid() && items == old(items)
      ensures buf == if old(Queues())[name] == [] then None else Some(old(Queues())[name][0])
      ensures buf.Some? ==> |buf.value| <= QCOUNT_MAX_SIZE
      ensures Queues() == Step(old(Queues()), Receive(name))
    {
      hide TotalSize;
      if Queues()[name] != [] {
        TotalSizeFirst(Queues()[name]);
      }
      buf := items[name].GetLastBuf();
    }
  }

  class FifoEngine {
    const oname: seq<string>
    const objname: string
    const fifos: FifoT

    /** A queue for each name that has none; a queue that exists is kept with all it holds. */
    constructor (names: seq<string>, fifos: FifoT)
      requires names != [] && fifos.Valid()
      modifies fifos
      ensures oname == names && objname == names[0] && this.fifos == fifos
      ensures fifos.Valid() && fifos.Queues() == WithNames(old(fifos.Queues()), names)
    {
      hide *;
      oname, objname, this.fifos := names, names[0], fifos;
      new;
      fifos.AddAll(names);
    }

    predicate Room(h: BufHandler)
      reads h
    {
      h.baseLen + 2 <= h.maxSize - h.baseLen
    }

    /** Frames the message behind itself in its own buffer. */
    method Frame(h: BufHandler, deprecated: Byte, msgType: Byte)
      requires h.Valid() && h.buf == 0 && Room(h)
      modifies h.base
      ensures h.Contents() == old(h.Contents())
      ensures h.base[h.baseLen..2 * h.baseLen + 2] == Framed(Letter(deprecated, msgType, old(h.Contents())))
    {
      ghost var data := h.Contents();
      var at := h.baseLen;
      h.base[at] := deprecated;
      h.base[at + 1] := msgType;
      CopyBehind(h.base, at + 2, h.len);
      assert h.base[at..at + 2] == [deprecated, msgType] && h.base[..at] == data;
    }

    /** memcpy of the first n bytes of a buffer to a place behind them. */
    static method CopyBehind(base: array<Byte>, at: nat, n: nat)
      requires n <= at && at + n <= base.Length
      modifies base
      ensures base[..at] == old(base[..at]) && base[at..at + n] == old(base[..n])
    {
      forall k | 0 <= k < n {
        base[at + k] := base[k];
      }
    }

    /** Queues a message for one receiver.  That there is a receiver is all a true result says: a full queue drops it. */
    method SendUcastFifoMessage(h: BufHandler, deprecated: Byte, msgType: Byte, dest: string) returns (ok: bool)
      requires fifos.Valid() && h.Valid() && h.buf == 0
      modifies h.base, fifos.items.Values
      ensures fifos.Valid() && fifos.items == old(fifos.items) && h.Contents() == old(h.Contents())
      ensures ok == (Room(h) && dest in fifos.items)
      ensures fifos.Queues() == if !Room(h) then old(fifos.Queues())
                                else Step(old(fifos.Queues()), Post(dest, Letter(deprecated, msgType, h.Contents())).Event())
    {
      hide FifoT.Valid, FifoT.Queues, TotalSize, Push, Framed, HasOther, PartlySent;
      if h.len + 2 > h.maxSize - h.baseLen {
        return false;
      }
      Frame(h, deprecated, msgType);
      if dest in fifos.items {
        fifos.PushTo(dest, h.base, h.baseLen, h.len + 2);
        ok := true;
      } else {
        ok := false;
      }
    }

    /** Queues a message for everyone but the sender. */
    method SendMcastFifoMessage(h: BufHandler, deprecated: Byte, msgType: Byte) returns (ok: bool)
      requires fifos.Valid() && h.Valid() && h.buf == 0
      modifies h.base, fifos.items.Values
      ensures fifos.Valid() && fifos.items == old(fifos.items) && h.Contents() == old(h.Contents())
      ensures ok == (Room(h) && HasOther(fifos.items.Keys, objname))
      ensures fifos.Queues() == if !Room(h) then old(fifos.Queues())
                                else Step(old(fifos.Queues()), PostAll(objname, Letter(deprecated, msgType, h.Contents())).Event())
    {
      hide FifoT.Valid, FifoT.Queues, TotalSize, Push, Framed, HasOther, PartlySent;
      if h.len + 2 > h.maxSize - h.baseLen {
        return false;
      }
      Frame(h, deprecated, msgType);
      ok := fifos.PushToOthers(objname, h.base, h.baseLen, h.len + 2);
    }

    /** Sends a copy of data: to one receiver, or to everyone else if the destination is "all".  The size of the buffer is
        computed in 32 bits, so longer data than 2^31 - 4 bytes never leaves. */
    method SendSharedFifoMessage(msgType: Byte, dest: string, data: array?<Byte>, dataLen: U32, deprecated: Byte)
      returns (ok: bool)
      requires fifos.Valid() && if data == null then dataLen == 0 else dataLen <= data.Length
      modifies fifos.items.Values
      ensures fifos.Valid() && fifos.items == old(fifos.items)
      ensures ok == (dataLen <= 0x7FFF_FFFC
                     && if dest == "all" then HasOther(fifos.items.Keys, objname) else dest in fifos.items)
      ensures fifos.Queues() == if dataLen > 0x7FFF_FFFC then old(fifos.Queues())
                                else Step(old(fifos.Queues()), Shared(dest, Letter(deprecated, msgType, Payload(data, dataLen))).Event())
    {
      hide FifoT.Valid, FifoT.Queues, Step, Framed, HasOther, Wrap;
      SizeWraps(dataLen);
      var h := new BufHandler();
      ok := h.AllocBuf(Wrap((dataLen + 3) * 2));
      ok := h.AddToBuf(data, dataLen);
      if !ok {
        return false;
      }
      h.MoveToStart();
      assert h.Contents() == Payload(data, dataLen);
      if dest != "all" {
        ok := SendUcastFifoMessage(h, deprecated, msgType, dest);
      } else {
        ok := SendMcastFifoMessage(h, deprecated, msgType);
      }
    }

    function Payload(data: array?<Byte>, dataLen: U32): Bytes
      requires if data == null then dataLen == 0 else dataLen <= data.Length
      reads data
    {
      if data == null then [] else data[..dataLen]
    }

    function Shared(dest: string, letter: Letter): Mail {
      if dest == "all" then PostAll(objname, letter) else Post(dest, letter)
    }

    /** Takes the oldest message of one of the engine's own queues. */
    method GetUcastFifoMessage(buf: Buffer, msgType0: Byte, name: string) returns (ok: bool, msgType: Byte)
      requires fifos.Valid() && (name in oname ==> name in fifos.items)
      modifies buf, fifos.items.Values
      ensures fifos.Valid() && fifos.items == old(fifos.items)
      ensures fifos.Queues() == if name in oname then Step(old(fifos.Queues()), Collect(name).Event()) else old(fifos.Queues())
      ensures ok == (name in oname && old(fifos.Queues()[name]) != [] && |old(fifos.Queues()[name])[0]| >= 2)
      ensures ok ==> (msgType, buf.buf[..]) == Opened(old(fifos.Queues()[name])[0])
      ensures !ok ==> msgType == msgType0 && unchanged(buf)
    {
      hide FifoT.Valid, FifoT.Queues, TotalSize, Push;
      ok, msgType := false, msgType0;
      if name !in oname {
        return;
      }
      var gbuf := fifos.PopFrom(name);
      if gbuf.None? || |gbuf.value| == 0 || |gbuf.value| < 2 {
        return;
      }
      buf.Create(|gbuf.value| - 2);
      buf.P(0, gbuf.value[2..]);
      msgType := gbuf.value[1];
      assert buf.buf[..] == gbuf.value[2..];
      ok := true;
    }
  }
}
