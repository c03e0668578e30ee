/** The byte-at-a-time frame parser and the frame printer of proto/custom_proto.h
    (CustomProto_id1size1checksum1type1data250crc1_a_T). */
module FrameProto {
  import opened Bytes
  import opened Crc

  // ---------------------------------------------------------------------------------------------
  // Frames

  /** The size byte, which counts the payload and five bytes more, modulo 256. */
  function SizeByte(len: nat): Byte {
    ((len + 5) % 256) as Byte
  }

  /** The payload length a size byte stands for. */
  function LengthOf(size: Byte): (n: nat)
    ensures n < 256
  {
    (size as nat + 251) % 256
  }

  function FrameCrc(cmd: Byte, data: Bytes): Byte {
    Register8(0xFF - cmd, data)
  }

  /** The third byte guards the size byte. */
  function Guard(header: Byte, size: Byte): Byte {
    header ^ size
  }

  function Head(header: Byte, cmd: Byte, len: nat): (r: Bytes)
    ensures |r| == 4
  {
    [header, SizeByte(len), Guard(header, SizeByte(len)), cmd]
  }

  /** Header, size, header xor size, command, payload, checksum. */
  function Frame(header: Byte, cmd: Byte, data: Bytes): (r: Bytes)
    ensures |r| == |data| + 5
  {
    Head(header, cmd, |data|) + data + [FrameCrc(cmd, data)]
  }

  lemma LengthOfSize(len: nat)
    requires len < 256
    ensures LengthOf(SizeByte(len)) == len
  {
  }

  // ---------------------------------------------------------------------------------------------
  // The parser as a state machine

  /** The parser's fields, with the payload buffer and length that the caller keeps between calls. */
  datatype Parser = Parser(state: nat, size: Byte, typ: Byte, dataPointer: nat, dataLen: nat, data: Bytes) {
    predicate Valid() {
      && state <= 5 && dataLen < 256 && |data| >= 255
      && (state == 4 ==> dataPointer < dataLen)
      && (state == 5 ==> dataPointer == dataLen)
      && (state < 4 ==> dataPointer == 0)
    }

    predicate Idle() {
      state == 0 && dataPointer == 0 && dataLen < 256 && |data| >= 255
    }

    function Payload(): Bytes
      requires dataLen <= |data|
    {
      data[..dataLen]
    }

    function Reset(): Parser {
      this.(state := 0, size := 0, dataPointer := 0)
    }

    /** The parser after one byte. */
    function Step(header: Byte, ch: Byte): (r: Parser)
      requires Valid()
      ensures r.Valid()
    {
      if state == 0 then (if ch == header then this.(state := 1) else this)
      else if state == 1 then this.(state := 2, size := ch, dataLen := LengthOf(ch))
      else if state == 2 then (if Guard(header, size) == ch then this.(state := 3) else Reset())
      else if state == 3 then this.(state := if dataLen == 0 then 5 else 4, typ := ch)
      else if state == 4 then
        this.(state := if dataPointer + 1 == dataLen then 5 else 4, data := data[dataPointer := ch],
              dataPointer := dataPointer + 1)
      else Reset()
    }

    /** The byte completes a frame with the right checksum. */
    predicate Accepts(ch: Byte)
      requires Valid()
    {
      state == 5 && ch == FrameCrc(typ, Payload())
    }
  }

  /** Where a call stops: after all its input, or at byte n, which completed a frame. */
  datatype Outcome = Pending(p: Parser) | Accepted(p: Parser, n: nat)

  /** What one call does with its input. */
  function Run(header: Byte, p: Parser, s: Bytes): (r: Outcome)
    requires p.Valid()
    ensures r.p.Valid() && (r.Accepted? ==> r.n < |s| && r.p.Idle())
    decreases |s|
  {
    if s == [] then Pending(p)
    else
      var r := Run(header, p, s[..|s| - 1]);
      var ch := s[|s| - 1];
      if r.Accepted? then r
      else if r.p.Accepts(ch) then Accepted(r.p.Step(header, ch), |s| - 1)
      else Pending(r.p.Step(header, ch))
  }

  /** What the last of a series of calls does, each starting where the one before left the parser. */
  function Calls(header: Byte, p: Parser, chunks: seq<Bytes>): (r: Outcome)
    requires p.Valid()
    ensures r.p.Valid()
    decreases |chunks|
  {
    if chunks == [] then Pending(p)
    else Run(header, Calls(header, p, chunks[..|chunks| - 1]).p, chunks[|chunks| - 1])
  }

  lemma RunSnoc(header: Byte, p: Parser, s: Bytes, ch: Byte)
    requires p.Valid()
    ensures var r := Run(header, p, s);
            Run(header, p, s + [ch]) == if r.Accepted? then r
                                        else if r.p.Accepts(ch) then Accepted(r.p.Step(header, ch), |s|)
                                        else Pending(r.p.Step(header, ch))
  {
    hide FrameCrc;
    assert (s + [ch])[..|s|] == s;
  }

  lemma RunStep(header: Byte, p: Parser, s: Bytes, ch: Byte, q: Parser)
    requires p.Valid() && Run(header, p, s) == Pending(q) && q.state != 5
    ensures Run(header, p, s + [ch]) == Pending(q.Step(header, ch))
  {
    hide FrameCrc;
    RunSnoc(header, p, s, ch);
  }

  lemma RunNothing(header: Byte, p: Parser)
    requires p.Valid()
    ensures Run(header, p, []) == Pending(p)
  {
  }

  /** Once a frame has been completed, the rest of the input is not looked at. */
  lemma {:induction false} RunStops(header: Byte, p: Parser, s: Bytes, i: nat)
    requires p.Valid() && i <= |s| && Run(header, p, s[..i]).Accepted?
    ensures Run(header, p, s) == Run(header, p, s[..i])
    decreases |s|
  {
    hide FrameCrc;
    if i < |s| {
      var n := |s| - 1;
      assert s[..n][..i] == s[..i];
      RunStops(header, p, s[..n], i);
    } else {
      assert s[..i] == s;
    }
  }

  /** Input can be cut between two calls as long as no frame is completed before the cut. */
  lemma {:induction false} RunConcat(header: Byte, p: Parser, a: Bytes, b: Bytes)
    requires p.Valid() && Run(header, p, a).Pending?
    ensures var r := Run(header, Run(header, p, a).p, b);
            Run(header, p, a + b) == if r.Accepted? then Accepted(r.p, |a| + r.n) else r
    decreases |b|
  {
    hide FrameCrc, Run;
    if b == [] {
      assert a + b == a;
      RunNothing(header, Run(header, p, a).p);
    } else {
      var n := |b| - 1;
      RunConcat(header, p, a, b[..n]);
      assert a + b == (a + b[..n]) + [b[n]] && b == b[..n] + [b[n]];
      RunSnoc(header, p, a + b[..n], b[n]);
      RunSnoc(header, Run(header, p, a).p, b[..n], b[n]);
    }
  }

  lemma {:induction false} PrefixPending(header: Byte, p: Parser, s: Bytes, i: nat)
    requires p.Valid() && i <= |s|
    requires Run(header, p, s).Pending? || Run(header, p, s).n >= i
    ensures Run(header, p, s[..i]).Pending?
    decreases |s|
  {
    hide FrameCrc;
    if i < |s| {
      PrefixPending(header, p, s[..|s| - 1], i);
      assert s[..|s| - 1][..i] == s[..i];
    } else {
      assert s[..i] == s;
    }
  }

  /** Any cut of the input into calls leads to the same acceptance, in the last call. */
  lemma {:induction false} CallsPending(header: Byte, p: Parser, chunks: seq<Bytes>)
    requires p.Valid() && Run(header, p, Flatten(chunks)).Pending?
    ensures Calls(header, p, chunks) == Run(header, p, Flatten(chunks))
    decreases |chunks|
  {
    hide FrameCrc;
    if chunks != [] {
      var n := |chunks| - 1;
      var before := Flatten(chunks[..n]);
      assert Flatten(chunks)[..|before|] == before;
      PrefixPending(header, p, Flatten(chunks), |before|);
      CallsPending(header, p, chunks[..n]);
      RunConcat(header, p, before, chunks[n]);
    }
  }

  lemma AnyFragmentation(header: Byte, p: Parser, chunks: seq<Bytes>)
    requires p.Valid() && chunks != [] && chunks[|chunks| - 1] != []
    requires var r := Run(header, p, Flatten(chunks)); r.Accepted? && r.n == |Flatten(chunks)| - 1
    ensures var n := |chunks| - 1;
            && (forall k :: 0 <= k <= n ==> Calls(header, p, chunks[..k]).Pending?)
            && Calls(header, p, chunks) == Accepted(Run(header, p, Flatten(chunks)).p, |chunks[n]| - 1)
  {
    hide FrameCrc;
    var n := |chunks| - 1;
    var all := Flatten(chunks);
    forall k | 0 <= k <= n
      ensures Calls(header, p, chunks[..k]).Pending?
      ensures Run(header, p, Flatten(chunks[..k])).Pending?
      ensures Calls(header, p, chunks[..k]) == Run(header, p, Flatten(chunks[..k]))
    {
      FlattenPrefix(chunks, k);
      PrefixPending(header, p, all, |Flatten(chunks[..k])|);
      CallsPending(header, p, chunks[..k]);
    }
    RunConcat(header, p, Flatten(chunks[..n]), chunks[n]);
  }

  lemma {:induction false} FlattenPrefix(chunks: seq<Bytes>, k: nat)
    requires k <= |chunks|
    ensures |Flatten(chunks[..k])| <= |Flatten(chunks)|
    ensures Flatten(chunks)[..|Flatten(chunks[..k])|] == Flatten(chunks[..k])
    ensures k < |chunks| ==> |Flatten(chunks[..k])| + |chunks[|chunks| - 1]| <= |Flatten(chunks)|
    decreases |chunks|
  {
    if k == |chunks| {
      assert chunks[..k] == chunks;
    } else {
      var n := |chunks| - 1;
      FlattenPrefix(chunks[..n], k);
      assert chunks[..n][..k] == chunks[..k];
    }
  }

  // ---------------------------------------------------------------------------------------------
  // Round trip

  predicate Free(header: Byte, garbage: Bytes) {
    forall i :: 0 <= i < |garbage| ==> garbage[i] != header
  }

  /** Bytes other than the header leave an idle parser as it is. */
  lemma {:induction false} GarbageIgnored(header: Byte, p: Parser, garbage: Bytes)
    requires p.Idle() && Free(header, garbage)
    ensures Run(header, p, garbage) == Pending(p)
    decreases |garbage|
  {
    hide FrameCrc;
    if garbage != [] {
      GarbageIgnored(header, p, garbage[..|garbage| - 1]);
    }
  }

  /** The parser after the first four bytes of a frame. */
  function Opened(p: Parser, cmd: Byte, len: nat): Parser
    requires len < 256
  {
    p.(state := if len == 0 then 5 else 4, size := SizeByte(len), typ := cmd, dataLen := len)
  }

  lemma HeadParsed(header: Byte, p: Parser, cmd: Byte, len: nat)
    requires p.Idle() && len < 256
    ensures Run(header, p, Head(header, cmd, len)) == Pending(Opened(p, cmd, len))
  {
    hide Run, Guard, SizeByte, LengthOf;
    var size := SizeByte(len);
    var x := Guard(header, size);
    LengthOfSize(len);
    RunNothing(header, p);
    assert [] + [header] == [header] && [header] + [size] == [header, size];
    assert [header, size] + [x] == [header, size, x] && [header, size, x] + [cmd] == [header, size, x, cmd];
    var p1 := p.(state := 1);
    var p2 := p1.(state := 2, size := size, dataLen := len);
    var p3 := p2.(state := 3);
    RunStep(header, p, [], header, p);
    RunStep(header, p, [header], size, p1);
    RunStep(header, p, [header, size], x, p2);
    RunStep(header, p, [header, size, x], cmd, p3);
  }

  /** The parser after i payload bytes. */
  lemma {:induction false} PayloadParsed(header: Byte, p: Parser, cmd: Byte, data: Bytes, i: nat)
    requires p.Idle() && |data| < 256 && i <= |data|
    ensures var r := Run(header, Opened(p, cmd, |data|), data[..i]);
            && r.Pending? && r.p.typ == cmd && r.p.dataLen == |data| && r.p.dataPointer == i
            && r.p.data[..i] == data[..i] && r.p.state == if i == |data| then 5 else 4
    decreases i
  {
    hide FrameCrc, SizeByte, Run, Parser.Step;
    if i == 0 {
      RunNothing(header, Opened(p, cmd, |data|));
    } else {
      var o := Opened(p, cmd, |data|);
      PayloadParsed(header, p, cmd, data, i - 1);
      assert data[..i] == data[..i - 1] + [data[i - 1]];
      RunSnoc(header, o, data[..i - 1], data[i - 1]);
      PayloadStep(header, Run(header, o, data[..i - 1]).p, data, i - 1);
    }
  }

  lemma PayloadStep(header: Byte, q: Parser, data: Bytes, i: nat)
    requires q.Valid() && q.state == 4 && q.dataPointer == i < |data| == q.dataLen && q.data[..i] == data[..i]
    ensures var r := q.Step(header, data[i]);
            && r.typ == q.typ && r.dataLen == q.dataLen && r.dataPointer == i + 1
            && r.data[..i + 1] == data[..i + 1] && r.state == if i + 1 == |data| then 5 else 4
  {
    hide Guard, LengthOf;
  }

  /** A frame is accepted exactly at its last byte, with its command and payload, by an idle parser. */
  lemma FrameAccepted(header: Byte, p: Parser, cmd: Byte, data: Bytes)
    requires p.Idle() && |data| < 256
    ensures var r := Run(header, p, Frame(header, cmd, data));
            && r.Accepted? && r.n == |data| + 4
            && r.p.typ == cmd && r.p.dataLen == |data| && r.p.Payload() == data
  {
    hide FrameCrc, Head, Run, Opened;
    var head := Head(header, cmd, |data|);
    HeadParsed(header, p, cmd, |data|);
    PayloadParsed(header, p, cmd, data, |data|);
    assert data[..|data|] == data;
    RunConcat(header, p, head, data);
    RunSnoc(header, p, head + data, FrameCrc(cmd, data));
  }

  /** Whatever precedes it without the header byte, and however the bytes are cut into calls: the calls before the last
      one report nothing, and the last one succeeds at its last byte with the command and payload sent. */
  lemma RoundTrip(header: Byte, p: Parser, garbage: Bytes, cmd: Byte, data: Bytes, chunks: seq<Bytes>)
    requires p.Idle() && Free(header, garbage) && |data| < 256
    requires Flatten(chunks) == garbage + Frame(header, cmd, data)
    requires chunks != [] && chunks[|chunks| - 1] != []
    ensures forall k :: 0 <= k < |chunks| ==> Calls(header, p, chunks[..k]).Pending?
    ensures var r := Calls(header, p, chunks);
            && r.Accepted? && r.n == |chunks[|chunks| - 1]| - 1
            && r.p.typ == cmd && r.p.dataLen == |data| && r.p.Payload() == data && r.p.Idle()
  {
    hide Frame, Run, FrameCrc;
    GarbageIgnored(header, p, garbage);
    FrameAccepted(header, p, cmd, data);
    RunConcat(header, p, garbage, Frame(header, cmd, data));
    AnyFragmentation(header, p, chunks);
  }

  // ---------------------------------------------------------------------------------------------
  // Soundness

  /** The bytes of an unfinished frame that a parser has taken in. */
  function Consumed(header: Byte, p: Parser): Bytes
    requires p.Valid()
  {
    if p.state == 0 then []
    else if p.state == 1 then [header]
    else if p.state == 2 then [header, p.size]
    else if p.state == 3 then [header, p.size, Guard(header, p.size)]
    else [header, p.size, Guard(header, p.size), p.typ] + p.data[..p.dataPointer]
  }

  predicate EndsWith(s: Bytes, t: Bytes) {
    |t| <= |s| && s[|s| - |t|..] == t
  }

  lemma EndsWithMore(s: Bytes, t: Bytes, ch: Byte)
    requires EndsWith(s, t)
    ensures EndsWith(s + [ch], t + [ch]) && EndsWith(s + [ch], [ch]) && EndsWith(s + [ch], [])
  {
  }

  /** A byte that does not end or abandon the frame is added to it. */
  lemma StepConsumes(header: Byte, p: Parser, ch: Byte)
    requires p.Valid() && p.Step(header, ch).state != 0
    ensures Consumed(header, p.Step(header, ch)) == Consumed(header, p) + [ch]
  {
    hide Consumed, Guard, LengthOf, FrameCrc;
    if p.state == 0 { HeaderConsumed(header, p, ch); }
    else if p.state == 1 { SizeConsumed(header, p, ch); }
    else if p.state == 2 { GuardConsumed(header, p, ch); }
    else if p.state == 3 { CommandConsumed(header, p, ch); }
    else if p.state == 4 { PayloadConsumed(header, p, ch); }
  }

  lemma HeaderConsumed(header: Byte, p: Parser, ch: Byte)
    requires p.Valid() && p.state == 0 && p.Step(header, ch).state != 0
    ensures Consumed(header, p.Step(header, ch)) == Consumed(header, p) + [ch]
  {
    hide Guard, LengthOf;
  }

  lemma SizeConsumed(header: Byte, p: Parser, ch: Byte)
    requires p.Valid() && p.state == 1 && p.Step(header, ch).state != 0
    ensures Consumed(header, p.Step(header, ch)) == Consumed(header, p) + [ch]
  {
    hide Guard, LengthOf;
  }

  lemma GuardConsumed(header: Byte, p: Parser, ch: Byte)
    requires p.Valid() && p.state == 2 && p.Step(header, ch).state != 0
    ensures Consumed(header, p.Step(header, ch)) == Consumed(header, p) + [ch]
  {
    hide Guard, LengthOf;
  }

  lemma CommandConsumed(header: Byte, p: Parser, ch: Byte)
    requires p.Valid() && p.state == 3 && p.Step(header, ch).state != 0
    ensures Consumed(header, p.Step(header, ch)) == Consumed(header, p) + [ch]
  {
    hide Guard, LengthOf;
  }

  lemma PayloadConsumed(header: Byte, p: Parser, ch: Byte)
    requires p.Valid() && p.state == 4
    ensures Consumed(header, p.Step(header, ch)) == Consumed(header, p) + [ch]
  {
    hide Guard;
    PayloadGrows(p, ch);
  }

  lemma PayloadGrows(p: Parser, ch: Byte)
    requires p.Valid() && p.state == 4
    ensures p.data[p.dataPointer := ch][..p.dataPointer + 1] == p.data[..p.dataPointer] + [ch]
  {
  }

  lemma StepKeepsLength(header: Byte, p: Parser, ch: Byte)
    requires p.Valid() && (p.state >= 2 ==> p.dataLen == LengthOf(p.size))
    ensures var q := p.Step(header, ch);
            q.state >= 2 ==> q.dataLen == LengthOf(q.size)
  {
    hide Guard, LengthOf;
  }

  lemma {:induction false} PendingExplained(header: Byte, p: Parser, s: Bytes)
    requires p.Idle() && Run(header, p, s).Pending?
    ensures var q := Run(header, p, s).p;
            EndsWith(s, Consumed(header, q)) && (q.state >= 2 ==> q.dataLen == LengthOf(q.size))
    decreases |s|
  {
    hide FrameCrc, Consumed, LengthOf;
    if s == [] {
      assert EndsWith([], Consumed(header, p)) by { IdleConsumedNothing(header, p); }
    } else {
      var n := |s| - 1;
      PendingExplained(header, p, s[..n]);
      var q := Run(header, p, s[..n]).p;
      if q.Step(header, s[n]).state != 0 {
        StepConsumes(header, q, s[n]);
      }
      StepKeepsLength(header, q, s[n]);
      assert s == s[..n] + [s[n]];
      EndsWithMore(s[..n], Consumed(header, q), s[n]);
      IdleConsumedNothing(header, q.Step(header, s[n]));
    }
  }

  lemma IdleConsumedNothing(header: Byte, p: Parser)
    requires p.Valid()
    ensures p.state == 0 ==> Consumed(header, p) == []
  {
  }

  lemma SizeOfLength(size: Byte)
    ensures SizeByte(LengthOf(size)) == size
  {
    hide LengthOf, SizeByte;
    Cycle(size as nat);
    LengthIs(size);
    SizeByteOf(size, LengthOf(size));
  }

  lemma Cycle(n: nat)
    requires n < 256
    ensures ((n + 251) % 256 + 5) % 256 == n
  {
  }

  lemma LengthIs(size: Byte)
    ensures LengthOf(size) == (size as nat + 251) % 256
  {
  }

  lemma SizeByteOf(size: Byte, len: nat)
    requires (len + 5) % 256 == size as nat
    ensures SizeByte(len) == size
  {
  }

  /** Whatever bytes an idle parser is fed: when it reports a command and payload, the bytes up to that point end with
      exactly the frame of that command and payload. */
  lemma AcceptedIsFrame(header: Byte, p: Parser, s: Bytes)
    requires p.Idle() && Run(header, p, s).Accepted?
    ensures var r := Run(header, p, s);
            r.p.dataLen <= |r.p.data| && EndsWith(s[..r.n + 1], Frame(header, r.p.typ, r.p.Payload()))
    decreases |s|
  {
    hide FrameCrc, Consumed, LengthOf, SizeByte, Frame, EndsWith, Run;
    RunNothing(header, p);
    var n := |s| - 1;
    assert s == s[..n] + [s[n]];
    RunSnoc(header, p, s[..n], s[n]);
    var r := Run(header, p, s);
    if Run(header, p, s[..n]).Accepted? {
      AcceptedIsFrame(header, p, s[..n]);
      assert s[..n][..r.n + 1] == s[..r.n + 1];
    } else {
      var q := Run(header, p, s[..n]).p;
      PendingExplained(header, p, s[..n]);
      EndsWithMore(s[..n], Consumed(header, q), s[n]);
      assert s[..n + 1] == s;
      CompleteIsFrame(header, q, s[n]);
      StepKeepsPayload(header, q, s[n]);
    }
  }

  lemma StepKeepsPayload(header: Byte, q: Parser, ch: Byte)
    requires q.Valid() && q.Accepts(ch)
    ensures var r := q.Step(header, ch);
            r.typ == q.typ && r.dataLen == q.dataLen <= |r.data| && r.Payload() == q.Payload()
  {
    hide FrameCrc, LengthOf, Guard;
  }

  lemma CompleteIsFrame(header: Byte, q: Parser, ch: Byte)
    requires q.Valid() && q.Accepts(ch) && q.dataLen == LengthOf(q.size)
    ensures Frame(header, q.typ, q.Payload()) == Consumed(header, q) + [ch]
  {
    hide FrameCrc, Guard, LengthOf, SizeByte;
    SizeOfLength(q.size);
  }

  // ---------------------------------------------------------------------------------------------
  // A damaged frame

  lemma WrongCrcRejected(header: Byte, p: Parser, cmd: Byte, data: Bytes, c: Byte)
    requires p.Idle() && |data| < 256 && c != FrameCrc(cmd, data)
    ensures var r := Run(header, p, Head(header, cmd, |data|) + data + [c]);
            r.Pending? && r.p.Idle()
  {
    hide FrameCrc, Head, Run, Opened;
    var head := Head(header, cmd, |data|);
    HeadParsed(header, p, cmd, |data|);
    PayloadParsed(header, p, cmd, data, |data|);
    assert data[..|data|] == data;
    RunConcat(header, p, head, data);
    RunSnoc(header, p, head + data, c);
  }

  lemma FrameCrcTellsApart(cmd: Byte, data: Bytes, b: Byte, i: nat)
    requires i < |data|
    ensures b != data[i] ==> FrameCrc(cmd, data[i := b]) != FrameCrc(cmd, data)
    ensures b != cmd ==> FrameCrc(b, data) != FrameCrc(cmd, data)
  {
    hide Register8;
    if FrameCrc(cmd, data[i := b]) == FrameCrc(cmd, data) {
      assert data[..i] + [data[i]] + data[i + 1..] == data && data[..i] + [b] + data[i + 1..] == data[i := b];
      ByteChangeDetected8(0xFF - cmd, data[..i], data[i], b, data[i + 1..]);
    }
    CommandTellsApart(cmd, b, data);
  }

  lemma CommandTellsApart(cmd: Byte, b: Byte, data: Bytes)
    ensures b != cmd ==> FrameCrc(b, data) != FrameCrc(cmd, data)
  {
    hide Register8;
    if FrameCrc(b, data) == FrameCrc(cmd, data) {
      Register8Injective(0xFF - b, 0xFF - cmd, data);
      ComplementDiffers(b, cmd);
    }
  }

  lemma ComplementDiffers(a: Byte, b: Byte)
    ensures 0xFF - a == 0xFF - b ==> a == b
  {
  }

  /** A single changed byte in the command, the payload or the checksum makes the parser drop the frame and wait for the
      next header. */
  lemma DamageDetected(header: Byte, p: Parser, cmd: Byte, data: Bytes, i: nat, b: Byte)
    requires p.Idle() && |data| < 256 && 3 <= i < |data| + 5 && b != Frame(header, cmd, data)[i]
    ensures var r := Run(header, p, Frame(header, cmd, data)[i := b]);
            r.Pending? && r.p.Idle()
  {
    hide FrameCrc, SizeByte, Run, Guard;
    var f := Frame(header, cmd, data)[i := b];
    var head := Head(header, cmd, |data|);
    if i == 3 {
      CommandTellsApart(cmd, b, data);
      assert f == Head(header, b, |data|) + data + [FrameCrc(cmd, data)];
      WrongCrcRejected(header, p, b, data, FrameCrc(cmd, data));
    } else if i < |data| + 4 {
      FrameCrcTellsApart(cmd, data, b, i - 4);
      assert f == head + data[i - 4 := b] + [FrameCrc(cmd, data)];
      WrongCrcRejected(header, p, cmd, data[i - 4 := b], FrameCrc(cmd, data));
    } else {
      assert f == head + data + [b];
      WrongCrcRejected(header, p, cmd, data, b);
    }
  }

  /** The layout of a frame.  The third byte makes the xor of the first three zero. */
  lemma FrameLayout(header: Byte, cmd: Byte, data: Bytes)
    requires |data| < 256
    ensures var f := Frame(header, cmd, data);
            && f[0] == header && f[1] == ((|data| + 5) % 256) as Byte && f[0] ^ f[1] ^ f[2] == 0
            && f[3] == cmd && f[4..4 + |data|] == data && f[4 + |data|] == FrameCrc(cmd, data)
  {
    hide FrameCrc;
    GuardCancels(header, SizeByte(|data|));
  }

  lemma GuardCancels(header: Byte, size: Byte)
    ensures header ^ size ^ Guard(header, size) == 0
  {
  }

  lemma GuardTellsApart(header: Byte, a: Byte, b: Byte)
    ensures Guard(header, a) == Guard(header, b) ==> a == b
  {
  }

  /** A changed header is passed over, and a changed size or guard byte makes the parser drop the frame at its third byte:
      what follows is taken in by an idle parser. */
  lemma DamagedHeadDropped(header: Byte, p: Parser, cmd: Byte, data: Bytes, i: nat, b: Byte)
    requires p.Idle() && |data| < 256 && i < 3 && b != Frame(header, cmd, data)[i]
    ensures var f, n := Frame(header, cmd, data)[i := b], if i == 0 then 1 else 3;
            var r := Run(header, p, f[..n]);
            r.Pending? && r.p.Idle() && (Free(header, f[n..]) ==> Run(header, p, f) == r)
  {
    hide FrameCrc, SizeByte, Run, Guard, LengthOf;
    var f := Frame(header, cmd, data)[i := b];
    var size := SizeByte(|data|);
    RunNothing(header, p);
    if i == 0 {
      assert f[..1] == [] + [b];
      RunStep(header, p, [], b, p);
      RestIgnored(header, p, f, 1);
    } else {
      var s, g := if i == 1 then b else size, if i == 2 then b else Guard(header, size);
      assert g != Guard(header, s) by { GuardTellsApart(header, size, b); }
      WrongGuardRejected(header, p, s, g);
      assert f[..3] == [header, s, g];
      RestIgnored(header, p, f, 3);
    }
  }

  lemma WrongGuardRejected(header: Byte, p: Parser, s: Byte, g: Byte)
    requires p.Idle() && g != Guard(header, s)
    ensures var r := Run(header, p, [header, s, g]);
            r.Pending? && r.p.Idle()
  {
    hide Run, Guard, LengthOf;
    RunNothing(header, p);
    assert [] + [header] == [header] && [header] + [s] == [header, s] && [header, s] + [g] == [header, s, g];
    var p1 := p.(state := 1);
    var p2 := p1.(state := 2, size := s, dataLen := LengthOf(s));
    RunStep(header, p, [], header, p);
    RunStep(header, p, [header], s, p1);
    RunStep(header, p, [header, s], g, p2);
  }

  lemma RestIgnored(header: Byte, p: Parser, s: Bytes, n: nat)
    requires p.Valid() && n <= |s| && Run(header, p, s[..n]).Pending? && Run(header, p, s[..n]).p.Idle()
    ensures Free(header, s[n..]) ==> Run(header, p, s) == Run(header, p, s[..n])
  {
    hide Run;
    if Free(header, s[n..]) {
      GarbageIgnored(header, Run(header, p, s[..n]).p, s[n..]);
      RunConcat(header, p, s[..n], s[n..]);
      assert s[..n] + s[n..] == s;
    }
  }

  // ---------------------------------------------------------------------------------------------
  // The class

  /** eErrorTp */
  datatype Error = NO_ERROR | ERROR

  lemma FrameWritten(head: Bytes, data: Bytes, rest: Bytes, c: Byte)
    requires rest != []
    ensures (head + data + rest)[|head| + |data| := c] == head + data + [c] + rest[1..]
  {
  }

  class CustomProto {
    const header: Byte
    var state: nat
    var size: Byte
    var typ: Byte
    var dataPointer: nat

    constructor (header: Byte)
      ensures this.header == header && state == 0 && dataPointer == 0
    {
      this.header := header;
      state, size, typ, dataPointer := 0, 0, 0, 0;
    }

    /** The parser's state together with the buffer and length the caller keeps for it. */
    ghost function Abs(data: array<Byte>, dataLen: nat): Parser
      reads this, data
    {
      Parser(state, size, typ, dataPointer, dataLen, data[..])
    }

    /** The checksum over command and payload. */
    method PayloadCrc(cmd: Byte, data: array<Byte>, dataLen: nat) returns (crc8: Byte)
      requires dataLen <= data.Length
      ensures crc8 == FrameCrc(cmd, data[..dataLen])
    {
      hide FeedByte8;
      assert data[0..0 + dataLen] == data[..dataLen];
      crc8 := CalcCRC8_ShotInit(cmd);
      if dataLen > 0 {
        crc8 := CalcCRC8_Shot(data, 0, crc8, dataLen);
      }
    }

    /** Takes in one byte.  The tests run from the last state down, so one byte causes one transition. */
    method ParseByte(ch: Byte, data: array<Byte>, dataLen0: nat) returns (accepted: bool, dataLen: nat)
      requires Abs(data, dataLen0).Valid()
      modifies this, data
      ensures accepted == old(Abs(data, dataLen0)).Accepts(ch)
      ensures Abs(data, dataLen) == old(Abs(data, dataLen0)).Step(header, ch)
      ensures accepted ==> typ == old(typ)
    {
      hide Guard, FrameCrc, LengthOf;
      accepted, dataLen := false, dataLen0;
      if ch == header && state == 0 {
        state := 1;
      } else if state == 5 {
        var crc8 := PayloadCrc(typ, data, dataLen);
        state := 0;
        size := 0;
        dataPointer := 0;
        accepted := ch == crc8;
      } else if state == 4 {
        data[dataPointer] := ch;
        dataPointer := dataPointer + 1;
        if dataPointer == dataLen {
          state := 5;
        }
      } else if state == 3 {
        typ := ch;
        if dataLen == 0 {
          state := 5;
        } else {
          state := 4;
        }
      } else if state == 2 {
        if Guard(header, size) == ch {
          state := 3;
        } else {
          state := 0;
          size := 0;
          dataPointer := 0;
        }
      } else if state == 1 {
        size := ch;
        dataLen := LengthOf(size);
        state := 2;
      }
    }

    /** Feeds bufsize bytes.  The number returned is a u8: the index of the accepting byte, or bufsize, modulo 256. */
    method GetFromBuf(data: array<Byte>, dataLen0: nat, buf: array<Byte>, bufsize: nat)
      returns (ret: nat, err: Error, cmd: Byte, dataLen: nat)
      requires Abs(data, dataLen0).Valid() && bufsize <= buf.Length && bufsize < 0x1_0000 && data != buf
      modifies this, data
      ensures var r := Run(header, old(Abs(data, dataLen0)), buf[..bufsize]);
              && Abs(data, dataLen) == r.p
              && (err == NO_ERROR <==> r.Accepted?)
              && (r.Accepted? ==> cmd == r.p.typ && ret == r.n % 256)
              && (r.Pending? ==> ret == bufsize % 256)
    {
      hide Run, FrameCrc;
      err := ERROR;
      dataLen := dataLen0;
      cmd := 0;
      ghost var p0 := Abs(data, dataLen0);
      RunNothing(header, p0);
      assert buf[..0] == [];
      var n := 0;
      while n < bufsize
        invariant 0 <= n <= bufsize && err == ERROR
        invariant Run(header, p0, buf[..n]) == Pending(Abs(data, dataLen))
      {
        assert buf[..n + 1] == buf[..n] + [buf[n]];
        RunSnoc(header, p0, buf[..n], buf[n]);
        var accepted;
        accepted, dataLen := ParseByte(buf[n], data, dataLen);
        if accepted {
          assert buf[..bufsize][..n + 1] == buf[..n + 1];
          RunStops(header, p0, buf[..bufsize], n + 1);
          return n % 256, NO_ERROR, typ, dataLen;
        }
        n := n + 1;
      }
      return bufsize % 256, err, cmd, dataLen;
    }

    /** Prints a frame.  The number returned is a u8. */
    method SetToBuf(cmd: Byte, data: array<Byte>, dataLen: nat, buf: array<Byte>) returns (ret: nat)
      requires dataLen < 256 && dataLen <= data.Length && dataLen + 5 <= buf.Length && data != buf
      modifies buf
      ensures buf[..] == Frame(header, cmd, data[..dataLen]) + old(buf[dataLen + 5..])
      ensures ret == dataLen + 5 <==> dataLen <= 250
    {
      hide FrameCrc, Head;
      ghost var head, was := Head(header, cmd, dataLen), buf[..];
      WriteHead(cmd, dataLen, buf);
      Memcpy(buf, 4, data, dataLen);
      var crc8 := PayloadCrc(cmd, data, dataLen);
      FrameWritten(head, data[..dataLen], was[dataLen + 4..], crc8);
      assert buf[..] == head + data[..dataLen] + was[dataLen + 4..];
      buf[dataLen + 4] := crc8;
      assert was[dataLen + 4..][1..] == was[dataLen + 5..];
      return (dataLen + 5) % 256;
    }

    static method Memcpy(dst: array<Byte>, at: nat, src: array<Byte>, n: nat)
      requires at + n <= dst.Length && n <= src.Length && src != dst
      modifies dst
      ensures dst[..] == old(dst[..at]) + src[..n] + old(dst[at + n..])
    {
      forall k | 0 <= k < n {
        dst[at + k] := src[k];
      }
    }

    method WriteHead(cmd: Byte, dataLen: nat, buf: array<Byte>)
      requires dataLen < 256 && 4 <= buf.Length
      modifies buf
      ensures buf[..] == Head(header, cmd, dataLen) + old(buf[4..])
    {
      hide Guard, SizeByte;
      buf[0] := header;
      buf[1] := SizeByte(dataLen);
      buf[2] := Guard(buf[0], buf[1]);
      buf[3] := cmd;
    }
  }
}
