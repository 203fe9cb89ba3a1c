/** The results about one exchange, for every interleaving of the connection and the
    application: faithful framing and its exact condition, and the request body. */
module ExchangeResults {
  import opened Bytes
  import opened ParserSpec
  import opened ParserChunks
  import opened ExchangeSpec
  import opened ExchangeFraming

  // -- the response ----------------------------------------------------------------

  /** The response head of a run that has written it. */
  function HeadOf(x: Exchange): Output
    requires HeadAt(x.outputs).Some?
  {
    x.outputs[HeadAt(x.outputs).value]
  }

  /** What the reader should recover. */
  function SentBody(x: Exchange): bytes { if x.cycle.omitBody then [] else Concat(x.bodies) }

  /** A reader following section 6.3 of RFC 9112 recovers the bodies and leaves the
      next response alone; where only closing delimits, the head says so. */
  ghost predicate ReadsBack(limits: Limits, x: Exchange)
    requires HeadAt(x.outputs).Some?
  {
    var verb, head, wire := x.cycle.head.verb, HeadOf(x), StreamOf(After(x.outputs));
    if SelfDelimiting(verb, head) then
      forall following: bytes ::
        ReadResponse(limits, verb, head, wire + following, false) == Some(ReadBack(SentBody(x), following))
    else
      SaysClose(head) && ReadResponse(limits, verb, head, wire, true) == Some(ReadBack(SentBody(x), []))
  }

  lemma BodyOfConcat(a: seq<Event>, b: seq<Event>)
    ensures BodyOf(a + b) == BodyOf(a) + BodyOf(b)
  {
    if a == [] {
      assert a + b == b;
    } else {
      assert (a + b)[1..] == a[1..] + b;
      BodyOfConcat(a[1..], b);
    }
  }

  lemma {:induction false} BodyOfBodies(bodies: seq<bytes>)
    ensures BodyOf(Bodies(bodies)) == Concat(bodies)
  {
    if bodies != [] {
      var first := if bodies[0] == [] then [] else [BodyData(bodies[0])];
      BodyOfConcat(first, Bodies(bodies[1..]));
      BodyOfBodies(bodies[1..]);
      assert first != [] ==> first[1..] == [];
    }
  }

  lemma ChunksAreRead(limits: Limits, bodies: seq<bytes>, following: bytes)
    requires RoomToRead(limits) && ChunkLengthsFit(bodies)
    ensures ReadChunks(limits, EncodeChunks(bodies) + LAST_CHUNK + following) == Some(ReadBack(Concat(bodies), following))
  {
    var stream := EncodeChunks(bodies) + LAST_CHUNK + following;
    DrainWhole(limits, bodies, following);
    hide Drain, EncodeChunks, Bodies, Concat, ChunkLengthsFit;
    var events := Bodies(bodies) + [EndOfMessage];
    BodyOfConcat(Bodies(bodies), [EndOfMessage]);
    BodyOfBodies(bodies);
    assert BodyOf([EndOfMessage]) == [] by { assert [EndOfMessage][1..] == []; }
    assert BodyOf(events) == Concat(bodies);
  }

  lemma DrainWhole(limits: Limits, bodies: seq<bytes>, following: bytes)
    requires RoomToRead(limits) && ChunkLengthsFit(bodies)
    ensures var d := Drain(ChunkReader(limits, EncodeChunks(bodies) + LAST_CHUNK + following), false);
            d.events == Bodies(bodies) + [EndOfMessage] && d.next.phase == Complete && d.next.buffer == following
  {
    hide EncodeChunks, Bodies, ChunkLengthsFit;
    var p := ChunkReader(limits, EncodeChunks(bodies) + LAST_CHUNK + following);
    ChunkedRoundTrip(p, bodies, following, false);
    var past := PastBody(p, Sizes(bodies), following);
    assert Drain(past, false) == Drained([], past);
    hide Drain;
    assert Bodies(bodies) + [EndOfMessage] + [] == Bodies(bodies) + [EndOfMessage];
  }

  /** An interim response is no chunk size. */
  lemma InterimIsNoChunk(p: Parser, tail: bytes)
    requires p.phase == ChunkSize && p.error.None? && p.buffer == INTERIM + tail
    ensures Drain(p, false).next.phase == Failed
  {
    var line := Ascii("HTTP/1.1 100 Continue");
    var room := p.limits.maxChunkLine;
    assert line[0] == 72 && DigitValue(72).None?;
    assert MatchChunkSize(line).None?;
    assert Without(line, LF);
    assert p.buffer == line + CRLF + (CRLF + tail);
    if |line| + 1 <= room {
      ReadsLine(line, CRLF + tail, room, ChunkLineTooLong);
    } else {
      IndexOfIs(p.buffer, LF, |line| + 1);
    }
    hide MatchChunkSize, ReadLine, Drain, Ascii;
    assert StepOf(p).Raise?;
    RaiseFails(p);
  }

  lemma RaiseFails(p: Parser)
    requires p.error.None? && p.phase != Complete && StepOf(p).Raise?
    ensures Drain(p, false).next.phase == Failed
  {
    assert Keeps(p, StepOf(p));
    hide StepOf;
  }

  lemma {:induction false} InterimBreaksChunks(p: Parser, front: seq<bytes>, tail: bytes)
    requires p.phase == ChunkSize && p.error.None? && p.chunkRemaining == 0
    requires ChunkLengthsFit(front) && p.limits.maxBodySize.None? && HasRoom(p, 0)
    requires p.buffer == EncodeChunks(front) + INTERIM + tail
    ensures Drain(p, false).next.phase == Failed
    decreases |front|
  {
    hide Drain, EncodeChunk;
    if front == [] {
      assert p.buffer == INTERIM + tail;
      InterimIsNoChunk(p, tail);
    } else {
      var rest := EncodeChunks(front[1..]) + INTERIM + tail;
      var body := front[0];
      if body == [] {
        assert p.buffer == rest;
        InterimBreaksChunks(p, front[1..], tail);
      } else {
        assert p.buffer == EncodeChunk(body) + rest;
        DrainChunk(p, body, rest, false);
        InterimBreaksChunks(PastChunk(p, body, rest), front[1..], tail);
      }
    }
  }

  lemma BodylessIsOmitted(c: Cycle)
    requires c.status >= 200
    ensures Bodyless(c.head.verb, c.status) <==> OmitsBody(c.head.verb, c.status)
  {
  }

  /** What the framing invariant says of a completed response without a length of the
      application's own. */
  lemma CompletedKinds(x: Exchange)
    requires WellFramed(x) && x.cycle.responseComplete && x.cycle.status >= 200
    requires !HasField(x.cycle.headers, CONTENT_LENGTH)
    ensures var c, h := x.cycle, HeadOf(x);
            var lengths, codings := ValuesOf(h.fields, CONTENT_LENGTH), ValuesOf(h.fields, TRANSFER_ENCODING);
            && HeadAt(x.outputs).Some? && h.ResponseHead? && h.status == c.status
            && (Bodyless(c.head.verb, c.status) <==> c.omitBody)
            && codings == (if c.chunked then [CHUNKED] else [])
            && (c.chunked ==> lengths == [] && !c.omitBody)
            && (SaysClose(h) <==> !c.keepAlive)
            && StreamOf(After(x.outputs)) == WireBody(ModeOf(c), x.bodies, x.late) + Closing(ModeOf(c), true)
            && (!c.chunked && lengths != [] ==> |x.bodies| == 1 && x.late.None? && lengths == [Numeral(|x.bodies[0]|, 10)])
            && (!c.chunked && !c.omitBody && lengths == [] ==> SaysClose(h))
            && (x.late.Some? ==> x.late.value <= |x.bodies|)
  {
    hide ValuesOf, StreamOf, WireBody, Closing;
    NoFieldNoValues(x.cycle.headers, CONTENT_LENGTH);
    BodylessIsOmitted(x.cycle);
  }

  /** What holds whether or not the application gave a length. */
  lemma CompletedWire(x: Exchange)
    requires WellFramed(x) && x.cycle.responseComplete && x.cycle.status >= 200
    ensures var c, h := x.cycle, HeadOf(x);
            && HeadAt(x.outputs).Some? && h.ResponseHead? && h.status == c.status
            && (Bodyless(c.head.verb, c.status) <==> c.omitBody)
            && StreamOf(After(x.outputs)) == WireBody(ModeOf(c), x.bodies, x.late) + Closing(ModeOf(c), true)
            && (x.late.Some? ==> x.late.value <= |x.bodies|)
  {
    hide ValuesOf, StreamOf, WireBody, Closing;
    BodylessIsOmitted(x.cycle);
  }

  lemma OmittedIff(limits: Limits, x: Exchange)
    requires WellFramed(x) && x.cycle.responseComplete && x.cycle.status >= 200 && x.cycle.omitBody
    ensures ReadsBack(limits, x) <==> x.late.None?
  {
    hide ValuesOf, StreamOf, WellFramed;
    CompletedWire(x);
    var c, wire := x.cycle, StreamOf(After(x.outputs));
    if x.late.None? {
      assert forall following: bytes :: wire + following == following;
    } else {
      assert wire == INTERIM;
      assert ReadResponse(limits, c.head.verb, HeadOf(x), wire + [], false) == Some(ReadBack([], wire + []));
      assert |wire + []| > 0;
    }
  }

  lemma ChunkedIff(limits: Limits, x: Exchange)
    requires WellFramed(x) && x.cycle.responseComplete && x.cycle.status >= 200
    requires !HasField(x.cycle.headers, CONTENT_LENGTH) && x.cycle.chunked
    requires RoomToRead(limits) && ChunkLengthsFit(x.bodies)
    ensures ReadsBack(limits, x) <==> x.late.None?
  {
    hide ValuesOf, StreamOf, EncodeChunks, WellFramed, ReadChunks, Concat;
    CompletedKinds(x);
    var c, wire := x.cycle, StreamOf(After(x.outputs));
    match x.late
    case None =>
      forall following: bytes
        ensures ReadResponse(limits, c.head.verb, HeadOf(x), wire + following, false) == Some(ReadBack(SentBody(x), following))
      {
        ChunksAreRead(limits, x.bodies, following);
      }
    case Some(n) =>
      InterimIsRefused(limits, x.bodies[..n], EncodeChunks(x.bodies[n..]) + LAST_CHUNK);
      assert wire + [] == EncodeChunks(x.bodies[..n]) + INTERIM + (EncodeChunks(x.bodies[n..]) + LAST_CHUNK);
      assert ReadResponse(limits, c.head.verb, HeadOf(x), wire + [], false) == None;
  }

  lemma InterimIsRefused(limits: Limits, front: seq<bytes>, tail: bytes)
    requires RoomToRead(limits) && ChunkLengthsFit(front)
    ensures ReadChunks(limits, EncodeChunks(front) + INTERIM + tail) == None
  {
    hide Drain;
    InterimBreaksChunks(ChunkReader(limits, EncodeChunks(front) + INTERIM + tail), front, tail);
  }

  lemma PlainIff(limits: Limits, x: Exchange)
    requires WellFramed(x) && x.cycle.responseComplete && x.cycle.status >= 200
    requires !HasField(x.cycle.headers, CONTENT_LENGTH) && !x.cycle.chunked && !x.cycle.omitBody
    ensures ReadsBack(limits, x) <==> x.late.None?
  {
    hide ValuesOf, StreamOf, WellFramed;
    CompletedKinds(x);
    var c, wire := x.cycle, StreamOf(After(x.outputs));
    var lengths := ValuesOf(HeadOf(x).fields, CONTENT_LENGTH);
    if lengths != [] {
      var body := x.bodies[0];
      assert x.bodies == [body] && x.bodies[1..] == [];
      assert Concat(x.bodies) == body;
      NumeralRoundTrip(|body|, 10);
      assert wire == body;
      hide Numeral, NumeralValue;
      assert forall following: bytes :: (wire + following)[..|body|] == body && (wire + following)[|body|..] == following;
    } else {
      LateIsLonger(x.bodies, x.late);
      assert wire == WireBody(Plain, x.bodies, x.late);
      hide Concat, WireBody;
    }
  }

  lemma LateIsLonger(bodies: seq<bytes>, late: Option<nat>)
    requires late.Some? ==> late.value <= |bodies|
    ensures WireBody(Plain, bodies, late) == Concat(bodies) <==> late.None?
  {
    match late
    case None =>
    case Some(n) =>
      assert bodies == bodies[..n] + bodies[n..];
      ConcatAppend(bodies[..n], bodies[n..]);
      assert |WireBody(Plain, bodies, late)| == |Concat(bodies)| + |INTERIM|;
  }

  lemma NewIsFramed(head: RequestHead)
    ensures WellFramed(NewExchange(head))
  {
    hide HeadFits;
  }

  /** In every run that completes a response of status 200 or more without a length of
      the application's own, whatever was received in between: the reader recovers
      exactly the bodies sent if and only if no interim response came after the head. */
  lemma FramingIsFaithfulIff(head: RequestHead, actions: seq<Action>, x: Exchange, limits: Limits)
    requires Reachable(NewExchange(head), actions, x) && x.cycle.responseComplete
    requires x.cycle.status >= 200 && !HasField(x.cycle.headers, CONTENT_LENGTH)
    requires RoomToRead(limits) && ChunkLengthsFit(x.bodies)
    ensures HeadAt(x.outputs).Some? && NoHead(After(x.outputs))
    ensures ReadsBack(limits, x) <==> x.late.None?
  {
    hide ReadsBack;
    NewIsFramed(head);
    RunKeepsFramed(NewExchange(head), actions, x);
    if x.cycle.omitBody {
      OmittedIff(limits, x);
    } else if x.cycle.chunked {
      ChunkedIff(limits, x);
    } else {
      PlainIff(limits, x);
    }
    hide HeadFits, StreamOf, WireBody, Closing;
  }

  /** A head without `connection: close` always delimits its own body, and it is the
      head of a connection that stays alive. */
  lemma PersistentHeadsDelimit(head: RequestHead, actions: seq<Action>, x: Exchange)
    requires Reachable(NewExchange(head), actions, x) && x.cycle.headWritten && x.cycle.status >= 200
    ensures HeadAt(x.outputs).Some?
    ensures !SaysClose(HeadOf(x)) ==> SelfDelimiting(head.verb, HeadOf(x))
    ensures SaysClose(HeadOf(x)) <==> !x.cycle.keepAlive
  {
    NewIsFramed(head);
    RunKeepsFramed(NewExchange(head), actions, x);
    RunKeepsHead(NewExchange(head), actions, x);
    hide ValuesOf, StreamOf, WireBody, Closing;
    BodylessIsOmitted(x.cycle);
  }

  lemma {:induction false} RunKeepsHead(start: Exchange, actions: seq<Action>, x: Exchange)
    requires Reachable(start, actions, x)
    ensures x.cycle.head == start.cycle.head
    decreases |actions|
  {
    if actions != [] {
      ActKeepsHead(start, actions[0]);
      hide Act;
      RunKeepsHead(Act(start, actions[0]), actions[1..], x);
    }
  }

  lemma ActKeepsHead(x: Exchange, a: Action)
    requires Enabled(x, a)
    ensures Act(x, a).cycle.head == x.cycle.head
  {
    match a
    case CallSend(m, shouldClose) => hide Send, BeginReceive, Poll; assert SendKeeps(x, m, shouldClose);
    case _ => hide Send;
  }

  predicate SendKeeps(x: Exchange, m: SendMessage, shouldClose: bool) {
    Send(x.cycle, m, shouldClose).Sent? ==> SameRequest(x.cycle, Send(x.cycle, m, shouldClose).next)
  }

  /** The lengths the application gave are one numeral, the size of what it sent. */
  predicate LengthFits(lengths: seq<bytes>, bodies: seq<bytes>) {
    |lengths| == 1 && IsNumeral(lengths[0], 10) && NumeralValue(lengths[0], 10) == |Concat(bodies)|
  }

  /** The application's own lengths are trusted, whatever they say: the response is read
      back if and only if no interim response came after the head, and the body is left
      out or there is one length and it is the number of bytes sent. */
  lemma OwnLengthIsFaithfulIff(head: RequestHead, actions: seq<Action>, x: Exchange, limits: Limits)
    requires Reachable(NewExchange(head), actions, x) && x.cycle.responseComplete && x.cycle.status >= 200
    requires HasField(x.cycle.headers, CONTENT_LENGTH)
    ensures HeadAt(x.outputs).Some?
    ensures ReadsBack(limits, x) <==>
            x.late.None? && (x.cycle.omitBody || LengthFits(ValuesOf(x.cycle.headers, CONTENT_LENGTH), x.bodies))
  {
    NewIsFramed(head);
    RunKeepsFramed(NewExchange(head), actions, x);
    CompletedWire(x);
    if x.cycle.omitBody {
      OmittedIff(limits, x);
    } else {
      OwnLengthOnTheWire(x);
      hide ReadsBack, ReadResponse, ValuesOf, StreamOf, Concat, WireBody, LengthFits, WellFramed;
      ReadsBackIff(limits, x);
    }
  }

  /** A response that announces one byte and has none. */
  lemma WrongLengthRun(head: RequestHead, limits: Limits) returns (actions: seq<Action>, x: Exchange)
    requires head.verb != Ascii("HEAD")
    ensures Reachable(NewExchange(head), actions, x) && x.cycle.responseComplete && x.late.None?
    ensures x.bodies == [[]] && x.cycle.headers == [Header(CONTENT_LENGTH, Ascii("1"))]
    ensures HeadAt(x.outputs).Some? && !ReadsBack(limits, x)
  {
    var one := [Header(CONTENT_LENGTH, Ascii("1"))];
    var a1, a2 := CallSend(ResponseStart(200, one), false), CallSend(ResponseBody([], false), false);
    var x1 := Act(NewExchange(head), a1);
    x := Act(x1, a2);
    actions := [a1, a2];
    assert Lower(CONTENT_LENGTH) == CONTENT_LENGTH by { LengthIsLower(); }
    assert x1.cycle.responseStarted && x1.cycle.status == 200 && x1.cycle.headers == one;
    assert x.cycle.responseComplete && x.cycle.headers == one && x.bodies == [[]] && x.cycle.status == 200;
    assert !x.cycle.omitBody;
    hide Act;
    assert Reachable(x, [], x);
    assert [a2][1..] == [] && Reachable(x1, [a2], x);
    assert actions[1..] == [a2];
    assert one[0].name == CONTENT_LENGTH && HasField(one, CONTENT_LENGTH);
    OwnLengthIsFaithfulIff(head, actions, x, limits);
    OneIsNotNone(one);
  }

  lemma LengthIsLower()
    ensures Lower(CONTENT_LENGTH) == CONTENT_LENGTH
  {
    forall i | 0 <= i < |CONTENT_LENGTH| ensures LowerByte(CONTENT_LENGTH[i]) == CONTENT_LENGTH[i] {
      assert "content-length"[i] in "content-length";
    }
  }

  lemma OneIsNotNone(one: seq<Header>)
    requires one == [Header(CONTENT_LENGTH, Ascii("1"))]
    ensures !LengthFits(ValuesOf(one, CONTENT_LENGTH), [[]])
  {
    assert one[..0] == [] && ValuesOf(one, CONTENT_LENGTH) == [Ascii("1")];
    assert |Ascii("1")| == 1 && Ascii("1")[0] == 49;
    var bodies: seq<bytes> := [[]];
    assert bodies[1..] == [] && Concat(bodies) == [];
  }

  lemma OwnLengthOnTheWire(x: Exchange)
    requires WellFramed(x) && x.cycle.responseComplete && x.cycle.status >= 200 && !x.cycle.omitBody
    requires HasField(x.cycle.headers, CONTENT_LENGTH)
    ensures HeadAt(x.outputs).Some? && HeadOf(x).ResponseHead? && !Bodyless(x.cycle.head.verb, HeadOf(x).status)
    ensures x.late.Some? ==> x.late.value <= |x.bodies|
    ensures StreamOf(After(x.outputs)) == WireBody(Plain, x.bodies, x.late) && SentBody(x) == Concat(x.bodies)
    ensures ValuesOf(HeadOf(x).fields, CONTENT_LENGTH) == ValuesOf(x.cycle.headers, CONTENT_LENGTH) != []
    ensures ValuesOf(HeadOf(x).fields, TRANSFER_ENCODING) == []
  {
    hide ValuesOf, StreamOf, Concat, WireBody;
    NoFieldNoValues(x.cycle.headers, CONTENT_LENGTH);
    BodylessIsOmitted(x.cycle);
  }

  lemma ReadsBackIff(limits: Limits, x: Exchange)
    requires HeadAt(x.outputs).Some? && HeadOf(x).ResponseHead? && !Bodyless(x.cycle.head.verb, HeadOf(x).status)
    requires x.late.Some? ==> x.late.value <= |x.bodies|
    requires StreamOf(After(x.outputs)) == WireBody(Plain, x.bodies, x.late) && SentBody(x) == Concat(x.bodies)
    requires ValuesOf(HeadOf(x).fields, CONTENT_LENGTH) == ValuesOf(x.cycle.headers, CONTENT_LENGTH) != []
    requires ValuesOf(HeadOf(x).fields, TRANSFER_ENCODING) == []
    ensures ReadsBack(limits, x) <==>
            x.late.None? && LengthFits(ValuesOf(x.cycle.headers, CONTENT_LENGTH), x.bodies)
  {
    hide ReadResponse, ValuesOf, StreamOf, Concat, WireBody, SentBody, Bodyless, IsNumeral, NumeralValue;
    LateIsLonger(x.bodies, x.late);
    LengthDecides(limits, x.cycle.head.verb, HeadOf(x), StreamOf(After(x.outputs)), Concat(x.bodies));
  }

  lemma LengthDecides(limits: Limits, verb: bytes, h: Output, wire: bytes, body: bytes)
    requires h.ResponseHead? && !Bodyless(verb, h.status)
    requires ValuesOf(h.fields, CONTENT_LENGTH) != [] && ValuesOf(h.fields, TRANSFER_ENCODING) == []
    ensures var lengths := ValuesOf(h.fields, CONTENT_LENGTH);
            (forall following: bytes :: ReadResponse(limits, verb, h, wire + following, false) == Some(ReadBack(body, following)))
            <==> wire == body && |lengths| == 1 && IsNumeral(lengths[0], 10) && NumeralValue(lengths[0], 10) == |wire|
  {
    hide ValuesOf, NumeralValue, Bodyless, IsNumeral;
    var lengths := ValuesOf(h.fields, CONTENT_LENGTH);
    assert wire + [] == wire;
    if |lengths| == 1 && IsNumeral(lengths[0], 10) {
      var n := NumeralValue(lengths[0], 10);
      if n == |wire| {
        assert forall following: bytes :: (wire + following)[..n] == wire && (wire + following)[n..] == following;
        assert ReadResponse(limits, verb, h, wire + [], false) == Some(ReadBack(wire, []));
      } else {
        assert ReadResponse(limits, verb, h, wire + [], false) != Some(ReadBack(body, []));
      }
    } else {
      assert ReadResponse(limits, verb, h, wire + [], false) == None;
    }
  }

  // -- the request body ---------------------------------------------------------------

  function Interims(outputs: seq<Output>): nat {
    if outputs == [] then 0
    else Interims(outputs[..|outputs| - 1]) + if outputs[|outputs| - 1].Interim? then 1 else 0
  }

  lemma InterimsConcat(a: seq<Output>, b: seq<Output>)
    ensures Interims(a + b) == Interims(a) + Interims(b)
  {
    if b == [] {
      assert a + b == a;
    } else {
      assert (a + b)[..|a + b| - 1] == a + b[..|b| - 1];
      InterimsConcat(a, b[..|b| - 1]);
    }
  }

  lemma {:induction false} NoInterims(outputs: seq<Output>)
    requires forall i :: 0 <= i < |outputs| ==> !outputs[i].Interim?
    ensures Interims(outputs) == 0
  {
    if outputs != [] { NoInterims(outputs[..|outputs| - 1]); }
  }

  /** Handed over, then buffered, is what was fed; the end is delivered only when
      everything has been; the interim response is written once, if one was asked for. */
  predicate Conserved(x: Exchange) {
    var c := x.cycle;
    && x.handed + c.body == x.fed
    && (x.finals > 0 <==> c.bodyFinished)
    && (c.bodyFinished ==> c.bodyComplete && c.body == [])
    && (ForBody in x.calls ==> c.continueSent)
    && Interims(x.outputs) == (if c.head.expectContinue && c.continueSent then 1 else 0)
    && (!c.head.expectContinue ==> c.continueSent && x.late.None?)
  }

  lemma SendKeepsConserved(x: Exchange, m: SendMessage, shouldClose: bool)
    requires Conserved(x)
    ensures Conserved(Act(x, CallSend(m, shouldClose)))
  {
    hide Send, Interims;
    if Send(x.cycle, m, shouldClose).Sent? {
      var outs := Send(x.cycle, m, shouldClose).outputs;
      NoInterims(outs);
      InterimsConcat(x.outputs, outs);
    }
  }

  lemma ActKeepsConserved(x: Exchange, a: Action)
    requires Conserved(x) && Enabled(x, a)
    ensures Conserved(Act(x, a))
  {
    match a
    case CallSend(m, shouldClose) => SendKeepsConserved(x, m, shouldClose); hide Send, Conserved;
    case CallReceive =>
      var outs := BeginReceive(x.cycle).outputs;
      InterimsConcat(x.outputs, outs);
      assert outs != [] ==> outs[..0] == [];
      hide Send;
    case Wake(_) =>
      assert x.handed + x.cycle.body + [] == x.handed + x.cycle.body;
      assert x.handed + [] == x.handed;
      hide Send;
    case FeedBody(data) =>
      assert x.handed + (x.cycle.body + data) == x.handed + x.cycle.body + data;
      hide Send;
    case _ => hide Send;
  }

  lemma {:induction false} RunKeepsConserved(start: Exchange, actions: seq<Action>, x: Exchange)
    requires Conserved(start) && Reachable(start, actions, x)
    ensures Conserved(x)
    decreases |actions|
  {
    hide Conserved, Act, Enabled;
    if actions != [] {
      ActKeepsConserved(start, actions[0]);
      RunKeepsConserved(Act(start, actions[0]), actions[1..], x);
    }
  }

  /** Over every interleaving of feeding, disconnecting, receiving and sending, with any
      number of `receive` calls at a time. */
  lemma BodyIsConserved(head: RequestHead, actions: seq<Action>, x: Exchange)
    requires Reachable(NewExchange(head), actions, x)
    ensures x.handed + x.cycle.body == x.fed
    ensures x.finals > 0 ==> x.cycle.bodyComplete && x.handed == x.fed
    ensures Interims(x.outputs) <= 1
    ensures !head.expectContinue ==> Interims(x.outputs) == 0 && x.late.None?
  {
    RunKeepsConserved(NewExchange(head), actions, x);
    RunKeepsHead(NewExchange(head), actions, x);
    assert x.handed + [] == x.handed;
  }

  // -- how often the end is told ----------------------------------------------------------

  /** The body has ended and two calls or more wait for it. */
  predicate Crowded(x: Exchange) { x.cycle.bodyComplete && x.calls[ForBody] >= 2 }

  /** Some state of the run is crowded. */
  ghost predicate Crowds(start: Exchange, actions: seq<Action>)
    decreases |actions|
  {
    Crowded(start) || (actions != [] && Enabled(start, actions[0]) && Crowds(Act(start, actions[0]), actions[1..]))
  }

  /** How many calls have been told that the body ended, or still have to be. */
  function Told(x: Exchange): nat { x.finals + if x.cycle.bodyComplete then x.calls[ForBody] else 0 }

  lemma ActTells(x: Exchange, a: Action)
    requires Conserved(x) && Enabled(x, a)
    ensures var y := Act(x, a); Told(y) >= 2 <==> Told(x) >= 2 || Crowded(y)
  {
    hide Send, Interims;
  }

  lemma {:induction false} RunTells(start: Exchange, actions: seq<Action>, x: Exchange)
    requires Conserved(start) && Reachable(start, actions, x)
    ensures Told(x) >= 2 <==> Told(start) >= 2 || Crowds(start, actions)
    decreases |actions|
  {
    hide Conserved, Act, Enabled;
    if actions != [] {
      ActTells(start, actions[0]);
      ActKeepsConserved(start, actions[0]);
      RunTells(Act(start, actions[0]), actions[1..], x);
    }
  }

  /** The end is told at most once, to the calls that wait included, if and only if at no
      time after the body has ended two calls were waiting for it. */
  lemma EndIsToldOnceIff(head: RequestHead, actions: seq<Action>, x: Exchange)
    requires Reachable(NewExchange(head), actions, x)
    ensures Told(x) <= 1 <==> !Crowds(NewExchange(head), actions)
    ensures x.finals <= Told(x) && (x.cycle.bodyComplete && ForBody in x.calls ==> Enabled(x, Wake(ForBody)))
    ensures x.cycle.bodyComplete && ForBody in x.calls ==> Act(x, Wake(ForBody)).finals == x.finals + 1
  {
    NewIsConserved(head);
    RunTells(NewExchange(head), actions, x);
    hide Reachable, Crowds;
  }

  lemma NewIsConserved(head: RequestHead)
    ensures Conserved(NewExchange(head)) && Told(NewExchange(head)) == 0
  {
  }

  /** Two calls that overlap while the body is still to come are both told its end. */
  lemma OverlappingCallsEndTwice(head: RequestHead) returns (actions: seq<Action>, x: Exchange)
    ensures actions == [CallReceive, CallReceive, FeedEom, Wake(ForBody), Wake(ForBody)]
    ensures Reachable(NewExchange(head), actions, x) && x.finals == 2
  {
    var x0 := NewExchange(head);
    var x1 := Act(x0, CallReceive);
    var x2 := Act(x1, CallReceive);
    var x3 := Act(x2, FeedEom);
    var x4 := Act(x3, Wake(ForBody));
    x := Act(x4, Wake(ForBody));
    actions := [CallReceive, CallReceive, FeedEom, Wake(ForBody), Wake(ForBody)];
    hide Act;
    assert Reachable(x, actions[5..], x);
    assert actions[4..][1..] == actions[5..] && Reachable(x4, actions[4..], x);
    assert actions[3..][1..] == actions[4..] && Reachable(x3, actions[3..], x);
    assert actions[2..][1..] == actions[3..] && Reachable(x2, actions[2..], x);
    assert actions[1..][1..] == actions[2..] && Reachable(x1, actions[1..], x);
  }

  /** Streaming before receiving, on a request that expects 100-continue: the interim
      response lands inside the body. */
  lemma LateInterimRun(head: RequestHead) returns (actions: seq<Action>, x: Exchange)
    requires head.expectContinue && head.version == Http11 && head.verb != Ascii("HEAD")
    ensures Reachable(NewExchange(head), actions, x)
    ensures x.cycle.responseComplete && x.cycle.status == 200 && x.cycle.headers == [] && x.late == Some(1)
  {
    var x0 := NewExchange(head);
    var a1, a2, a3, a4 := CallSend(ResponseStart(200, []), false), CallSend(ResponseBody([], true), false),
        CallReceive, CallSend(ResponseBody([], false), false);
    var x1 := Act(x0, a1);
    var x2 := Act(x1, a2);
    var x3 := Act(x2, a3);
    x := Act(x3, a4);
    actions := [a1, a2, a3, a4];
    assert x1.cycle.responseStarted && x1.cycle.status == 200 && x1.cycle.headers == [];
    assert x2.cycle.headWritten && !x2.cycle.responseComplete && !x2.cycle.continueSent && x2.bodies == [[]];
    assert x3.late == Some(1) && x3.cycle.status == 200;
    assert x.cycle.responseComplete;
    hide Act;
    assert Reachable(x, [], x);
    assert [a4][1..] == [] && Reachable(x3, [a4], x);
    assert [a3, a4][1..] == [a4] && Reachable(x2, [a3, a4], x);
    assert [a2, a3, a4][1..] == [a3, a4] && Reachable(x1, [a2, a3, a4], x);
    assert actions[1..] == [a2, a3, a4];
  }
}
