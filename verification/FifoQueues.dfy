/** What named message queues do over a whole run (fifo.cxx, memadmin.cxx), as values. */
module FifoQueues {
  import opened Bytes

  const QCOUNT_MAX_SIZE: nat := 1000000

  function TotalSize(q: seq<Bytes>): nat {
    if q == [] then 0 else TotalSize(q[..|q| - 1]) + |q[|q| - 1]|
  }

  lemma {:induction false} TotalSizeConcat(p: seq<Bytes>, q: seq<Bytes>)
    ensures TotalSize(p + q) == TotalSize(p) + TotalSize(q)
  {
    if q == [] {
      assert p + q == p;
    } else {
      assert (p + q)[..|p + q| - 1] == p + q[..|q| - 1];
      TotalSizeConcat(p, q[..|q| - 1]);
    }
  }

  lemma TotalSizeFirst(q: seq<Bytes>)
    requires q != []
    ensures TotalSize(q) == |q[0]| + TotalSize(q[1..])
  {
    assert q == [q[0]] + q[1..];
    TotalSizeConcat([q[0]], q[1..]);
    assert [q[0]][..0] == [];
  }

  predicate Fits(q: seq<Bytes>, m: Bytes) {
    TotalSize(q) + |m| <= QCOUNT_MAX_SIZE
  }

  function Push(q: seq<Bytes>, m: Bytes): seq<Bytes> {
    if Fits(q, m) then q + [m] else q
  }

  type Queues = map<string, seq<Bytes>>

  /** One mutex-protected step of some thread. */
  datatype Event =
    | Ucast(dest: string, msg: Bytes)
    | Mcast(sender: string, msg: Bytes)
    | Receive(name: string)
  {
    predicate AddressedTo(fifo: string) {
      match this
      case Ucast(dest, _) => dest == fifo
      case Mcast(sender, _) => sender != fifo
      case Receive(_) => false
    }

    predicate Touches(fifo: string) {
      AddressedTo(fifo) || this == Receive(fifo)
    }
  }

  function Step(qs: Queues, e: Event): (r: Queues)
    ensures r.Keys == qs.Keys
  {
    match e
    case Ucast(dest, msg) => if dest in qs then qs[dest := Push(qs[dest], msg)] else qs
    case Mcast(sender, msg) => map n | n in qs :: if n != sender then Push(qs[n], msg) else qs[n]
    case Receive(name) => if name in qs && qs[name] != [] then qs[name := qs[name][1..]] else qs
  }

  /** What a step does to one queue. */
  function Local(q: seq<Bytes>, e: Event, fifo: string): seq<Bytes> {
    if e.AddressedTo(fifo) then Push(q, e.msg)
    else if e == Receive(fifo) && q != [] then q[1..]
    else q
  }

  lemma StepIsLocal(qs: Queues, e: Event, fifo: string)
    requires fifo in qs
    ensures Step(qs, e)[fifo] == Local(qs[fifo], e, fifo)
  {
  }

  function Run(qs: Queues, events: seq<Event>): (r: Queues)
    ensures r.Keys == qs.Keys
  {
    if events == [] then qs else Step(Run(qs, events[..|events| - 1]), events[|events| - 1])
  }

  /** The messages sent to a queue, in order, and for each whether it went in. */
  function Addressed(qs: Queues, events: seq<Event>, fifo: string): seq<(Bytes, bool)>
    requires fifo in qs
  {
    if events == [] then []
    else
      var before, e := events[..|events| - 1], events[|events| - 1];
      Addressed(qs, before, fifo)
      + if e.AddressedTo(fifo) then [(e.msg, Fits(Run(qs, before)[fifo], e.msg))] else []
  }

  function Sent(log: seq<(Bytes, bool)>): seq<Bytes> {
    if log == [] then [] else Sent(log[..|log| - 1]) + [log[|log| - 1].0]
  }

  function Accepted(log: seq<(Bytes, bool)>): seq<Bytes> {
    if log == [] then []
    else Accepted(log[..|log| - 1]) + if log[|log| - 1].1 then [log[|log| - 1].0] else []
  }

  /** What the receivers of a queue got, in order. */
  function Delivered(qs: Queues, events: seq<Event>, fifo: string): seq<Bytes>
    requires fifo in qs
  {
    if events == [] then []
    else
      var before, e := events[..|events| - 1], events[|events| - 1];
      Delivered(qs, before, fifo)
      + if e == Receive(fifo) && Run(qs, before)[fifo] != [] then [Run(qs, before)[fifo][0]] else []
  }

  /** In any interleaving, what a queue delivered followed by what it still holds is what it held at first followed by the
      messages it accepted, in the order they were sent. */
  lemma {:induction false} InOrder(qs: Queues, events: seq<Event>, fifo: string)
    requires fifo in qs
    ensures Delivered(qs, events, fifo) + Run(qs, events)[fifo] == qs[fifo] + Accepted(Addressed(qs, events, fifo))
  {
    hide Step, Fits;
    if events != [] {
      var before, e := events[..|events| - 1], events[|events| - 1];
      InOrder(qs, before, fifo);
      StepIsLocal(Run(qs, before), e, fifo);
      var q, log := Run(qs, before)[fifo], Addressed(qs, before, fifo);
      var done, was := Delivered(qs, before, fifo), qs[fifo];
      if e.AddressedTo(fifo) {
        var entry := (e.msg, Fits(q, e.msg));
        AcceptedAppend(log, entry);
        assert Addressed(qs, events, fifo) == log + [entry];
        assert Delivered(qs, events, fifo) == done;
        if entry.1 {
          assert done + (q + [e.msg]) == (done + q) + [e.msg];
          assert was + (Accepted(log) + [e.msg]) == (was + Accepted(log)) + [e.msg];
        }
      } else {
        assert Addressed(qs, events, fifo) == log;
        if e == Receive(fifo) && q != [] {
          assert (done + [q[0]]) + q[1..] == done + q;
        } else {
          assert Delivered(qs, events, fifo) == done;
        }
      }
    }
  }

  lemma AcceptedAppend(log: seq<(Bytes, bool)>, entry: (Bytes, bool))
    ensures Accepted(log + [entry]) == Accepted(log) + if entry.1 then [entry.0] else []
  {
    assert (log + [entry])[..|log|] == log;
  }

  /** The positions of the accepted messages among those sent: ascending, and each with its message. */
  ghost predicate Picks(at: seq<nat>, log: seq<(Bytes, bool)>, sent: seq<Bytes>, accepted: seq<Bytes>) {
    && |at| == |accepted| && |sent| == |log|
    && (forall i :: 0 <= i < |at| ==> at[i] < |log| && log[at[i]].1 && accepted[i] == sent[at[i]])
    && (forall i, j :: 0 <= i < j < |at| ==> at[i] < at[j])
  }

  /** The accepted messages are some of those sent, in the same order. */
  lemma {:induction false} AcceptedInOrder(log: seq<(Bytes, bool)>) returns (at: seq<nat>)
    ensures Picks(at, log, Sent(log), Accepted(log))
  {
    hide Picks;
    if log == [] {
      PicksNothing();
      return [];
    }
    var n := |log| - 1;
    at := AcceptedInOrder(log[..n]);
    PicksMore(at, log[..n], Sent(log[..n]), Accepted(log[..n]), log[n]);
    assert log == log[..n] + [log[n]];
    at := if log[n].1 then at + [n] else at;
  }

  lemma PicksNothing()
    ensures Picks([], [], [], [])
  {
  }

  lemma PicksMore(at: seq<nat>, log: seq<(Bytes, bool)>, sent: seq<Bytes>, accepted: seq<Bytes>, entry: (Bytes, bool))
    requires Picks(at, log, sent, accepted)
    ensures entry.1 ==> Picks(at + [|log|], log + [entry], sent + [entry.0], accepted + [entry.0])
    ensures !entry.1 ==> Picks(at, log + [entry], sent + [entry.0], accepted + [])
  {
  }

  /** A queue never holds more than the limit. */
  lemma {:induction false} NeverAboveLimit(qs: Queues, events: seq<Event>, fifo: string)
    requires fifo in qs && TotalSize(qs[fifo]) <= QCOUNT_MAX_SIZE
    ensures TotalSize(Run(qs, events)[fifo]) <= QCOUNT_MAX_SIZE
  {
    if events != [] {
      var before := events[..|events| - 1];
      NeverAboveLimit(qs, before, fifo);
      StepWithinLimit(Run(qs, before), events[|events| - 1], fifo);
    }
  }

  lemma StepWithinLimit(qs: Queues, e: Event, fifo: string)
    requires fifo in qs && TotalSize(qs[fifo]) <= QCOUNT_MAX_SIZE
    ensures TotalSize(Step(qs, e)[fifo]) <= QCOUNT_MAX_SIZE
  {
    var q := qs[fifo];
    if e.AddressedTo(fifo) {
      assert (q + [e.msg])[..|q|] == q;
    } else if q != [] {
      TotalSizeFirst(q);
    }
  }

  /** Nothing is lost from a queue whose messages, all together, stay within the limit. */
  lemma {:induction false} NothingLost(qs: Queues, events: seq<Event>, fifo: string)
    requires fifo in qs
    requires TotalSize(qs[fifo] + Sent(Addressed(qs, events, fifo))) <= QCOUNT_MAX_SIZE
    ensures Delivered(qs, events, fifo) + Run(qs, events)[fifo] == qs[fifo] + Sent(Addressed(qs, events, fifo))
  {
    InOrder(qs, events, fifo);
    AllAccepted(qs, events, fifo);
  }

  lemma {:induction false} AllAccepted(qs: Queues, events: seq<Event>, fifo: string)
    requires fifo in qs
    requires TotalSize(qs[fifo] + Sent(Addressed(qs, events, fifo))) <= QCOUNT_MAX_SIZE
    ensures Accepted(Addressed(qs, events, fifo)) == Sent(Addressed(qs, events, fifo))
  {
    if events != [] {
      var before, e := events[..|events| - 1], events[|events| - 1];
      var log, all := Addressed(qs, before, fifo), Addressed(qs, events, fifo);
      TotalSizeConcat(qs[fifo], Sent(all));
      TotalSizeConcat(qs[fifo], Sent(log));
      if e.AddressedTo(fifo) {
        assert all[..|all| - 1] == log;
        TotalSizeConcat(Sent(log), [e.msg]);
        assert [e.msg][..0] == [];
        AllAccepted(qs, before, fifo);
        InOrder(qs, before, fifo);
        TotalSizeConcat(Delivered(qs, before, fifo), Run(qs, before)[fifo]);
      } else {
        assert all == log;
        AllAccepted(qs, before, fifo);
      }
    }
  }

  /** A message is lost exactly when the unread bytes and it exceed the limit; the queue is then as it was. */
  lemma LostIff(qs: Queues, e: Event, fifo: string)
    requires fifo in qs && e.AddressedTo(fifo)
    ensures Step(qs, e)[fifo] == qs[fifo] <==> TotalSize(qs[fifo]) + |e.msg| > QCOUNT_MAX_SIZE
    ensures Step(qs, e)[fifo] != qs[fifo] ==> Step(qs, e)[fifo] == qs[fifo] + [e.msg]
  {
    assert |qs[fifo] + [e.msg]| == |qs[fifo]| + 1;
  }

  /** At any point of any run: a message is lost exactly when what the queue held at first and has accepted since, less
      what it has delivered, comes to more than the limit together with the message. */
  lemma LostIffBacklog(qs: Queues, events: seq<Event>, e: Event, fifo: string)
    requires fifo in qs && e.AddressedTo(fifo)
    ensures (Run(qs, events + [e])[fifo] == Run(qs, events)[fifo])
              <==> TotalSize(qs[fifo]) + TotalSize(Accepted(Addressed(qs, events, fifo)))
                   - TotalSize(Delivered(qs, events, fifo)) + |e.msg| > QCOUNT_MAX_SIZE
  {
    hide Step, Delivered, Accepted, Addressed;
    assert (events + [e])[..|events|] == events;
    LostIff(Run(qs, events), e, fifo);
    InOrder(qs, events, fifo);
    TotalSizeConcat(qs[fifo], Accepted(Addressed(qs, events, fifo)));
    TotalSizeConcat(Delivered(qs, events, fifo), Run(qs, events)[fifo]);
  }

  function Touching(events: seq<Event>, fifo: string): seq<Event> {
    if events == [] then []
    else Touching(events[..|events| - 1], fifo)
         + if events[|events| - 1].Touches(fifo) then [events[|events| - 1]] else []
  }

  /** What a queue holds and delivers depends only on the events that touch it: how they interleave with the rest does
      not matter. */
  lemma {:induction false} Independent(qs: Queues, events: seq<Event>, fifo: string)
    requires fifo in qs
    ensures Run(qs, events)[fifo] == Run(qs, Touching(events, fifo))[fifo]
    ensures Delivered(qs, events, fifo) == Delivered(qs, Touching(events, fifo), fifo)
    ensures Addressed(qs, events, fifo) == Addressed(qs, Touching(events, fifo), fifo)
  {
    hide Step, Fits, Push;
    if events != [] {
      var before, e := events[..|events| - 1], events[|events| - 1];
      Independent(qs, before, fifo);
      var some := Touching(before, fifo);
      StepIsLocal(Run(qs, before), e, fifo);
      StepIsLocal(Run(qs, some), e, fifo);
      if e.Touches(fifo) {
        assert Touching(events, fifo) == some + [e];
        assert (some + [e])[..|some|] == some;
      } else {
        assert Touching(events, fifo) == some;
      }
    }
  }

  /** As many receives as there are messages empty a queue and deliver all it held. */
  lemma {:induction false} Drain(qs: Queues, events: seq<Event>, fifo: string)
    requires fifo in qs && |events| <= |qs[fifo]|
    requires forall i :: 0 <= i < |events| ==> events[i] == Receive(fifo)
    ensures Delivered(qs, events, fifo) == qs[fifo][..|events|]
    ensures Run(qs, events)[fifo] == qs[fifo][|events|..]
  {
    if events != [] {
      Drain(qs, events[..|events| - 1], fifo);
    }
  }
}
