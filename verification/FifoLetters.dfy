/** What senders put into messages and receivers take out of them (basic.h, fifo.cxx), over whole runs. */
module FifoLetters {
  import opened Bytes
  import opened FifoQueues

  /** What a sender passes in; nobody reads the first byte. */
  datatype Letter = Letter(deprecated: Byte, msgType: Byte, data: Bytes)

  /** The bytes a letter is queued as: a two-byte header and the payload. */
  function Framed(l: Letter): Bytes {
    [l.deprecated, l.msgType] + l.data
  }

  /** What a receiver makes of a message: the type is byte 1, the payload follows it. */
  function Opened(m: Bytes): (Byte, Bytes)
    requires |m| >= 2
  {
    (m[1], m[2..])
  }

  lemma OpenedFramed(l: Letter)
    ensures |Framed(l)| == |l.data| + 2 && Opened(Framed(l)) == (l.msgType, l.data)
  {
  }

  /** What a thread does: it posts a letter to one queue or to all but its own, or collects from a queue. */
  datatype Mail =
    | Post(dest: string, letter: Letter)
    | PostAll(sender: string, letter: Letter)
    | Collect(name: string)
  {
    function Event(): Event {
      match this
      case Post(dest, l) => Ucast(dest, Framed(l))
      case PostAll(sender, l) => Mcast(sender, Framed(l))
      case Collect(name) => Receive(name)
    }
  }

  function Events(mails: seq<Mail>): (r: seq<Event>)
    ensures |r| == |mails|
  {
    seq(|mails|, i requires 0 <= i < |mails| => mails[i].Event())
  }

  /** The letters posted to a queue, in order. */
  function Letters(mails: seq<Mail>, fifo: string): seq<Letter> {
    if mails == [] then []
    else
      var m := mails[|mails| - 1];
      Letters(mails[..|mails| - 1], fifo) + if m.Event().AddressedTo(fifo) then [m.letter] else []
  }

  lemma {:induction false} SentAreFramed(qs: Queues, mails: seq<Mail>, fifo: string)
    requires fifo in qs
    ensures var sent := Sent(Addressed(qs, Events(mails), fifo));
            |sent| == |Letters(mails, fifo)| && forall i :: 0 <= i < |sent| ==> sent[i] == Framed(Letters(mails, fifo)[i])
  {
    hide Framed, Addressed, Sent;
    if mails == [] {
      NothingSent(qs, fifo);
    } else {
      var n := |mails| - 1;
      SentAreFramed(qs, mails[..n], fifo);
      assert Events(mails)[..n] == Events(mails[..n]);
      SentMore(qs, Events(mails), fifo);
    }
  }

  lemma NothingSent(qs: Queues, fifo: string)
    requires fifo in qs
    ensures Sent(Addressed(qs, [], fifo)) == []
  {
  }

  lemma SentMore(qs: Queues, events: seq<Event>, fifo: string)
    requires fifo in qs && events != []
    ensures var n := |events| - 1;
            Sent(Addressed(qs, events, fifo))
              == Sent(Addressed(qs, events[..n], fifo)) + if events[n].AddressedTo(fifo) then [events[n].msg] else []
  {
    hide Fits, Run;
    var n := |events| - 1;
    var log, e := Addressed(qs, events[..n], fifo), events[n];
    if e.AddressedTo(fifo) {
      assert (log + [(e.msg, Fits(Run(qs, events[..n])[fifo], e.msg))])[..|log|] == log;
    } else {
      assert Addressed(qs, events, fifo) == log;
    }
  }

  /** In every run, each message that a queue delivers, but for those it held at first, gives back the type and payload
      of one of the letters posted to it, in the order of posting and no letter twice. */
  lemma LettersDelivered(qs: Queues, mails: seq<Mail>, fifo: string) returns (at: seq<nat>)
    requires fifo in qs
    ensures var held, got, sent := |qs[fifo]|, Delivered(qs, Events(mails), fifo), Letters(mails, fifo);
            && (forall i, j :: 0 <= i < j < |at| ==> at[i] < at[j])
            && (|got| <= held || |at| >= |got| - held)
            && (forall i :: 0 <= i < |at| ==> at[i] < |sent|)
            && (forall k :: held <= k < |got| ==>
                  |got[k]| >= 2 && Opened(got[k]) == (sent[at[k - held]].msgType, sent[at[k - held]].data))
  {
    hide Framed, Opened, Delivered, Addressed, Letters, Sent, Accepted, Events, Run;
    var log := Addressed(qs, Events(mails), fifo);
    at := AcceptedInOrder(log);
    InOrder(qs, Events(mails), fifo);
    SentAreFramed(qs, mails, fifo);
    var held, got, sent := |qs[fifo]|, Delivered(qs, Events(mails), fifo), Letters(mails, fifo);
    forall k | held <= k < |got|
      ensures k - held < |at| && |got[k]| >= 2
      ensures Opened(got[k]) == (sent[at[k - held]].msgType, sent[at[k - held]].data)
    {
      assert got[k] == (got + Run(qs, Events(mails))[fifo])[k] == (qs[fifo] + Accepted(log))[k];
      assert got[k] == Accepted(log)[k - held] == Framed(sent[at[k - held]]);
      OpenedFramed(sent[at[k - held]]);
    }
  }

  /** A letter posted to an empty queue and collected from it comes out as it went in, if it is below the limit. */
  lemma PostedIsCollected(qs: Queues, dest: string, l: Letter)
    requires dest in qs && qs[dest] == [] && |l.data| + 2 <= QCOUNT_MAX_SIZE
    ensures var q := Step(qs, Post(dest, l).Event())[dest];
            && |q| == 1 && |q[0]| >= 2 && Opened(q[0]) == (l.msgType, l.data)
            && Delivered(qs, Events([Post(dest, l), Collect(dest)]), dest) == q
  {
    hide Opened, Framed;
    OpenedFramed(l);
    var post, collect := Ucast(dest, Framed(l)), Receive(dest);
    var events := Events([Post(dest, l), Collect(dest)]);
    assert events == [post, collect] && events[..1] == [post] && [post][..0] == [];
    assert TotalSize([]) == 0;
    assert Step(qs, post)[dest] == [Framed(l)];
    assert Run(qs, [post]) == Step(qs, post);
    assert Delivered(qs, [post], dest) == [];
  }
}
