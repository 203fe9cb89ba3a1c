/** Response framing: a reader that follows section 6.3 of RFC 9112 recovers exactly
    the bodies the application sent, and exactly when it does not. */
module ExchangeFraming {
  import opened Bytes
  import opened ParserSpec
  import opened ParserChunks
  import opened ExchangeSpec

  // -- the reader at the other end ---------------------------------------------------

  datatype ReadBack = ReadBack(body: bytes, rest: bytes)

  function BodyOf(events: seq<Event>): bytes {
    if events == [] then []
    else (if events[0].BodyData? then events[0].data else []) + BodyOf(events[1..])
  }

  /** The chunked coding, read by the repository's own chunk states. */
  function ReadChunks(limits: Limits, stream: bytes): Option<ReadBack> {
    var d := Drain(ChunkReader(limits, stream), false);
    if d.next.phase == Complete then Some(ReadBack(BodyOf(d.events), d.next.buffer)) else None
  }

  function ChunkReader(limits: Limits, stream: bytes): Parser {
    ParserSpec.Fresh(limits).(phase := ChunkSize, buffer := stream)
  }

  predicate Bodyless(verb: bytes, status: int) {
    verb == Ascii("HEAD") || 100 <= status < 200 || status == 204 || status == 304
  }

  /** Section 6.3: no body, then the transfer coding, then the length, then until the
      connection closes. `None` where more bytes, or the closing, must be awaited, or
      where the message is broken. */
  function ReadResponse(limits: Limits, verb: bytes, head: Output, stream: bytes, closed: bool): Option<ReadBack>
    requires head.ResponseHead?
  {
    var codings, lengths := ValuesOf(head.fields, TRANSFER_ENCODING), ValuesOf(head.fields, CONTENT_LENGTH);
    if Bodyless(verb, head.status) then Some(ReadBack([], stream))
    else if codings != [] && codings[|codings| - 1] == CHUNKED then ReadChunks(limits, stream)
    else if codings == [] && lengths != [] then
      if |lengths| > 1 || !IsNumeral(lengths[0], 10) then None
      else if |stream| < NumeralValue(lengths[0], 10) then None
      else Some(ReadBack(stream[..NumeralValue(lengths[0], 10)], stream[NumeralValue(lengths[0], 10)..]))
    else if closed then Some(ReadBack(stream, []))
    else None
  }

  predicate SelfDelimiting(verb: bytes, head: Output)
    requires head.ResponseHead?
  {
    Bodyless(verb, head.status) || ValuesOf(head.fields, TRANSFER_ENCODING) != []
    || ValuesOf(head.fields, CONTENT_LENGTH) != []
  }

  predicate SaysClose(head: Output)
    requires head.ResponseHead?
  {
    CLOSE in ValuesOf(head.fields, CONNECTION)
  }

  predicate RoomToRead(limits: Limits) {
    limits.maxChunkLine >= 17 && limits.maxHeadersSize >= 1 && limits.maxBodySize.None?
  }

  // -- the fields of a built head ---------------------------------------------------

  lemma ValuesConcat(a: seq<Header>, b: seq<Header>, name: bytes)
    ensures ValuesOf(a + b, name) == ValuesOf(a, name) + ValuesOf(b, name)
  {
    if b == [] {
      assert a + b == a;
    } else {
      assert (a + b)[..|a + b| - 1] == a + b[..|b| - 1];
      ValuesConcat(a, b[..|b| - 1], name);
    }
  }

  lemma {:induction false} KeptValues(headers: seq<Header>, allow: bool)
    ensures ValuesOf(KeptFields(headers, allow), TRANSFER_ENCODING) == []
    ensures ValuesOf(KeptFields(headers, allow), CONNECTION) == []
    ensures ValuesOf(KeptFields(headers, allow), CONTENT_LENGTH) ==
            if allow then ValuesOf(headers, CONTENT_LENGTH) else []
  {
    if headers != [] {
      var front, h := headers[..|headers| - 1], headers[|headers| - 1];
      KeptValues(front, allow);
      var kept := KeptFields(front, allow);
      assert (kept + [h])[..|kept|] == kept;
      assert |CONTENT_LENGTH| != |TRANSFER_ENCODING| && |CONNECTION| != |CONTENT_LENGTH|;
    }
  }

  lemma {:induction false} NoFieldNoValues(headers: seq<Header>, name: bytes)
    ensures ValuesOf(headers, name) == [] <==> !HasField(headers, name)
  {
    if headers != [] {
      var front, h := headers[..|headers| - 1], headers[|headers| - 1];
      NoFieldNoValues(front, name);
      if h.name == name {
        assert headers[|headers| - 1].name == name;
      } else {
        assert forall i :: 0 <= i < |front| ==> front[i] == headers[i];
      }
    }
  }

  lemma OneField(h: Header, name: bytes)
    ensures ValuesOf([h], name) == if h.name == name then [h.value] else []
  {
    assert [h][..0] == [];
  }

  lemma ServerFieldValues(length: Length, alive: bool, version: Version)
    ensures ValuesOf(LengthFields(length), TRANSFER_ENCODING) == if length.Chunks? then [CHUNKED] else []
    ensures ValuesOf(LengthFields(length), CONTENT_LENGTH) ==
            if length.KnownLength? then [Numeral(length.n, 10)] else []
    ensures ValuesOf(LengthFields(length), CONNECTION) == []
    ensures var c := ConnectionFields(alive, version);
            ValuesOf(c, TRANSFER_ENCODING) == [] && ValuesOf(c, CONTENT_LENGTH) == []
            && (CLOSE in ValuesOf(c, CONNECTION) <==> !alive)
  {
    assert |CONTENT_LENGTH| != |TRANSFER_ENCODING| && |CONNECTION| != |CONTENT_LENGTH|;
    assert |CLOSE| != |KEEP_ALIVE|;
    if length.KnownLength? {
      OneField(Header(CONTENT_LENGTH, Numeral(length.n, 10)), TRANSFER_ENCODING);
      OneField(Header(CONTENT_LENGTH, Numeral(length.n, 10)), CONTENT_LENGTH);
      OneField(Header(CONTENT_LENGTH, Numeral(length.n, 10)), CONNECTION);
    }
    OneField(Header(TRANSFER_ENCODING, CHUNKED), TRANSFER_ENCODING);
    OneField(Header(TRANSFER_ENCODING, CHUNKED), CONTENT_LENGTH);
    OneField(Header(TRANSFER_ENCODING, CHUNKED), CONNECTION);
    OneField(Header(CONNECTION, CLOSE), TRANSFER_ENCODING);
    OneField(Header(CONNECTION, CLOSE), CONTENT_LENGTH);
    OneField(Header(CONNECTION, CLOSE), CONNECTION);
    OneField(Header(CONNECTION, KEEP_ALIVE), TRANSFER_ENCODING);
    OneField(Header(CONNECTION, KEEP_ALIVE), CONTENT_LENGTH);
    OneField(Header(CONNECTION, KEEP_ALIVE), CONNECTION);
  }

  /** The three fields a reader looks at, whatever else the application added. */
  lemma BuiltHeadValues(c: Cycle, bodyLength: nat, more: bool, shouldClose: bool)
    ensures var fields := BuildResponse(c, bodyLength, more, shouldClose).output.fields;
            var length := ChooseLength(c, bodyLength, more);
            && ValuesOf(fields, TRANSFER_ENCODING) == (if length.Chunks? then [CHUNKED] else [])
            && ValuesOf(fields, CONTENT_LENGTH) ==
                 (if AllowsContentLength(c.status) then ValuesOf(c.headers, CONTENT_LENGTH) else [])
                 + (if length.KnownLength? then [Numeral(length.n, 10)] else [])
            && (CLOSE in ValuesOf(fields, CONNECTION) <==> !StaysAlive(c, length, shouldClose))
  {
    hide ChooseLength, StaysAlive, KeptFields, LengthFields, ConnectionFields, ValuesOf;
    var length := ChooseLength(c, bodyLength, more);
    var alive := StaysAlive(c, length, shouldClose);
    var kept := KeptFields(c.headers, AllowsContentLength(c.status));
    var l, k := LengthFields(length), ConnectionFields(alive, c.head.version);
    KeptValues(c.headers, AllowsContentLength(c.status));
    ServerFieldValues(length, alive, c.head.version);
    ValuesConcat(kept + l, k, TRANSFER_ENCODING);
    ValuesConcat(kept, l, TRANSFER_ENCODING);
    ValuesConcat(kept + l, k, CONTENT_LENGTH);
    ValuesConcat(kept, l, CONTENT_LENGTH);
    ValuesConcat(kept + l, k, CONNECTION);
    ValuesConcat(kept, l, CONNECTION);
  }

  // -- the outputs of a run -----------------------------------------------------------

  function StreamOf(outputs: seq<Output>): bytes {
    if outputs == [] then []
    else
      StreamOf(outputs[..|outputs| - 1]) +
      match outputs[|outputs| - 1]
      case Interim => INTERIM
      case Data(data) => data
      case ResponseHead(_, _) => []
  }

  lemma {:induction false} StreamConcat(outputs: seq<Output>, more: seq<Output>)
    ensures StreamOf(outputs + more) == StreamOf(outputs) + StreamOf(more)
    decreases |more|
  {
    if more == [] {
      assert outputs + more == outputs;
    } else {
      assert (outputs + more)[..|outputs + more| - 1] == outputs + more[..|more| - 1];
      StreamConcat(outputs, more[..|more| - 1]);
    }
  }

  /** Where the response head is, if it has been written. */
  function HeadAt(outputs: seq<Output>): (r: Option<nat>)
    ensures r.Some? ==> r.value < |outputs| && outputs[r.value].ResponseHead?
    ensures r.Some? ==> forall i :: 0 <= i < r.value ==> !outputs[i].ResponseHead?
    ensures r.None? ==> forall i :: 0 <= i < |outputs| ==> !outputs[i].ResponseHead?
  {
    if outputs == [] then None
    else
      match HeadAt(outputs[..|outputs| - 1])
      case Some(k) => Some(k)
      case None => if outputs[|outputs| - 1].ResponseHead? then Some(|outputs| - 1) else None
  }

  lemma {:induction false} HeadAtIs(outputs: seq<Output>, k: nat)
    requires k < |outputs| && outputs[k].ResponseHead? && forall i :: 0 <= i < k ==> !outputs[i].ResponseHead?
    ensures HeadAt(outputs) == Some(k)
  {
  }

  function After(outputs: seq<Output>): seq<Output> {
    match HeadAt(outputs)
    case None => []
    case Some(k) => outputs[k + 1..]
  }

  predicate NoHead(outputs: seq<Output>) { forall i :: 0 <= i < |outputs| ==> !outputs[i].ResponseHead? }

  lemma AppendAfter(outputs: seq<Output>, more: seq<Output>)
    requires HeadAt(outputs).Some? && NoHead(more)
    ensures HeadAt(outputs + more) == HeadAt(outputs) && After(outputs + more) == After(outputs) + more
    ensures (outputs + more)[HeadAt(outputs).value] == outputs[HeadAt(outputs).value]
    ensures StreamOf(After(outputs + more)) == StreamOf(After(outputs)) + StreamOf(more)
  {
    hide StreamOf, HeadAt;
    var k, all := HeadAt(outputs).value, outputs + more;
    assert all[..|outputs|] == outputs && all[k] == outputs[k];
    HeadAtIs(all, k);
    assert all[k + 1..] == outputs[k + 1..] + more;
    StreamConcat(After(outputs), more);
  }

  lemma AppendHead(outputs: seq<Output>, head: Output, more: seq<Output>)
    requires HeadAt(outputs).None? && head.ResponseHead? && NoHead(more)
    ensures var all := outputs + ([head] + more);
            HeadAt(all) == Some(|outputs|) && After(all) == more && all[|outputs|] == head
  {
    hide HeadAt;
    BehindHead(outputs, [head] + more);
    assert ([head] + more)[1..] == more;
    HeadAtIs(outputs + ([head] + more), |outputs|);
  }

  lemma BehindHead(outputs: seq<Output>, tail: seq<Output>)
    requires tail != []
    ensures var all := outputs + tail;
            && all[|outputs|] == tail[0] && all[|outputs| + 1..] == tail[1..]
            && forall i :: 0 <= i < |outputs| ==> all[i] == outputs[i]
  {
  }

  // -- what the bodies come to on the wire ---------------------------------------------

  function Payload(mode: Mode, bodies: seq<bytes>): bytes {
    match mode
    case Omitted => []
    case InChunks => EncodeChunks(bodies)
    case Plain => Concat(bodies)
  }

  function Closing(mode: Mode, complete: bool): bytes { if complete && mode.InChunks? then LAST_CHUNK else [] }

  /** The bodies, with an interim response between them where one was written late. */
  function WireBody(mode: Mode, bodies: seq<bytes>, late: Option<nat>): bytes
    requires late.Some? ==> late.value <= |bodies|
  {
    match late
    case None => Payload(mode, bodies)
    case Some(n) => Payload(mode, bodies[..n]) + INTERIM + Payload(mode, bodies[n..])
  }

  lemma EncodeConcat(a: seq<bytes>, b: seq<bytes>)
    ensures EncodeChunks(a + b) == EncodeChunks(a) + EncodeChunks(b)
  {
    hide EncodeChunk;
    if a == [] {
      assert a + b == b;
    } else {
      assert (a + b)[1..] == a[1..] + b;
      EncodeConcat(a[1..], b);
    }
  }

  lemma PayloadSnoc(mode: Mode, bodies: seq<bytes>, body: bytes)
    ensures Payload(mode, bodies + [body]) == Payload(mode, bodies) + Payload(mode, [body])
  {
    hide EncodeChunks, Concat;
    EncodeConcat(bodies, [body]);
    ConcatAppend(bodies, [body]);
  }

  lemma WireBodySnoc(mode: Mode, bodies: seq<bytes>, late: Option<nat>, body: bytes)
    requires late.Some? ==> late.value <= |bodies|
    ensures WireBody(mode, bodies + [body], late) == WireBody(mode, bodies, late) + Payload(mode, [body])
  {
    hide Payload;
    match late
    case None => PayloadSnoc(mode, bodies, body);
    case Some(n) =>
      assert (bodies + [body])[..n] == bodies[..n] && (bodies + [body])[n..] == bodies[n..] + [body];
      PayloadSnoc(mode, bodies[n..], body);
  }

  lemma BodyOutputsStream(mode: Mode, body: bytes, more: bool)
    ensures NoHead(BodyOutputs(mode, body, more))
    ensures StreamOf(BodyOutputs(mode, body, more)) == Payload(mode, [body]) + Closing(mode, !more)
  {
    PayloadOfOne(mode, body);
    hide EncodeChunk, LAST_CHUNK, Payload, StreamOf;
    var front := if body == [] || mode.Omitted? then [] else if mode.InChunks? then [Data(EncodeChunk(body))] else [Data(body)];
    var back := if !more && mode.InChunks? then [Data(LAST_CHUNK)] else [];
    assert BodyOutputs(mode, body, more) == front + back;
    StreamConcat(front, back);
    StreamOfData(EncodeChunk(body));
    StreamOfData(body);
    StreamOfData(LAST_CHUNK);
  }

  lemma StreamOfData(data: bytes)
    ensures StreamOf([Data(data)]) == data && StreamOf([]) == []
  {
    assert [Data(data)][..0] == [];
  }

  lemma PayloadOfOne(mode: Mode, body: bytes)
    ensures Payload(mode, [body]) ==
            if body == [] || mode.Omitted? then [] else if mode.InChunks? then EncodeChunk(body) else body
  {
    hide EncodeChunk;
    var none: seq<bytes> := [];
    assert [body][1..] == none;
    assert EncodeChunks([body]) == if body == [] then [] else EncodeChunk(body) + [];
    assert Concat([body]) == body + [];
  }

  /** The facts about a written head that a reader relies on. */
  predicate HeadFits(c: Cycle, bodies: seq<bytes>, head: Output) {
    var own := if AllowsContentLength(c.status) then ValuesOf(c.headers, CONTENT_LENGTH) else [];
    && head.ResponseHead? && head.status == c.status
    && c.omitBody == OmitsBody(c.head.verb, c.status)
    && ValuesOf(head.fields, TRANSFER_ENCODING) == (if c.chunked then [CHUNKED] else [])
    && (SaysClose(head) <==> !c.keepAlive)
    && (own != [] ==> ValuesOf(head.fields, CONTENT_LENGTH) == own && !c.chunked)
    && (own == [] ==>
          var lengths := ValuesOf(head.fields, CONTENT_LENGTH);
          || (c.responseComplete && !c.chunked && |bodies| == 1 && lengths == [Numeral(|bodies[0]|, 10)])
          || (lengths == [] && (c.chunked || c.omitBody || !c.keepAlive)))
    && (c.chunked ==> !c.omitBody && c.head.version == Http11)
  }

  /** Head once and first among the response's own bytes; the rest is the bodies. */
  predicate WellFramed(x: Exchange) {
    var c, at := x.cycle, HeadAt(x.outputs);
    && (c.headWritten <==> at.Some?)
    && (c.headWritten ==> c.responseStarted)
    && (c.responseComplete ==> c.headWritten)
    && (!c.headWritten ==> x.bodies == [] && x.late.None? && !c.chunked)
    && (c.headWritten ==>
          && x.bodies != [] && NoHead(After(x.outputs))
          && HeadFits(c, x.bodies, x.outputs[at.value])
          && (x.late.Some? ==> 1 <= x.late.value <= |x.bodies| && c.continueSent && (c.responseComplete ==> x.late.value < |x.bodies|))
          && StreamOf(After(x.outputs)) == WireBody(ModeOf(c), x.bodies, x.late) + Closing(ModeOf(c), c.responseComplete))
  }

  // -- every step keeps the framing ---------------------------------------------------

  lemma NothingAppended(outputs: seq<Output>)
    ensures outputs + [] == outputs
  {
  }

  /** Only these fields of the cycle matter to the framing. */
  predicate SameFraming(c: Cycle, d: Cycle) {
    && c.head == d.head && c.keepAlive == d.keepAlive && c.responseStarted == d.responseStarted
    && c.responseComplete == d.responseComplete && c.status == d.status && c.headers == d.headers
    && c.headWritten == d.headWritten && c.chunked == d.chunked && c.omitBody == d.omitBody
  }

  lemma HeadFitsAlike(c: Cycle, d: Cycle, bodies: seq<bytes>, head: Output)
    requires SameFraming(c, d)
    ensures HeadFits(c, bodies, head) <==> HeadFits(d, bodies, head)
  {
    hide ValuesOf;
  }

  lemma FramedAlike(x: Exchange, y: Exchange)
    requires WellFramed(x) && SameFraming(x.cycle, y.cycle) && (x.cycle.continueSent ==> y.cycle.continueSent)
    requires y.outputs == x.outputs && y.bodies == x.bodies && y.late == x.late
    ensures WellFramed(y)
  {
    hide HeadFits, WireBody, StreamOf, Closing;
    if x.cycle.headWritten {
      HeadFitsAlike(x.cycle, y.cycle, x.bodies, x.outputs[HeadAt(x.outputs).value]);
    }
  }

  lemma OtherStepsKeepFramed(x: Exchange, a: Action)
    requires WellFramed(x) && Enabled(x, a) && !a.CallReceive? && !a.CallSend?
    ensures WellFramed(Act(x, a))
  {
    hide WellFramed;
    OthersAreAlike(x, a);
    hide Act, Enabled, SameFraming;
    FramedAlike(x, Act(x, a));
  }

  lemma OthersAreAlike(x: Exchange, a: Action)
    requires Enabled(x, a) && !a.CallReceive? && !a.CallSend?
    ensures var y := Act(x, a);
            && SameFraming(x.cycle, y.cycle) && (x.cycle.continueSent ==> y.cycle.continueSent)
            && y.outputs == x.outputs && y.bodies == x.bodies && y.late == x.late
  {
    hide Send, BeginReceive, Poll, SameFraming;
    if a.Wake? { PollIsAlike(x.cycle, a.waiting); }
    FedIsAlike(x.cycle);
  }

  lemma PollIsAlike(c: Cycle, w: Waiting)
    requires Poll(c, w).Delivered?
    ensures SameFraming(c, Poll(c, w).next) && Poll(c, w).next.continueSent == c.continueSent
  {
  }

  lemma FedIsAlike(c: Cycle)
    ensures forall body :: SameFraming(c, c.(body := body))
    ensures SameFraming(c, c.(bodyComplete := true)) && SameFraming(c, c.(disconnected := true))
  {
  }

  lemma InterimStream()
    ensures StreamOf([Interim]) == INTERIM && NoHead([Interim])
  {
    assert [Interim][..0] == [];
  }

  lemma ReceiveKeepsFramed(x: Exchange)
    requires WellFramed(x) && Enabled(x, CallReceive)
    ensures WellFramed(Act(x, CallReceive))
  {
    var c, y := x.cycle, Act(x, CallReceive);
    NothingAppended(x.outputs);
    if BeginReceive(c).outputs == [] || !c.headWritten {
      hide WellFramed;
      EarlyReceiveKeepsFramed(x);
    } else {
      LateReceiveKeepsFramed(x);
    }
  }

  lemma EarlyReceiveKeepsFramed(x: Exchange)
    requires WellFramed(x) && Enabled(x, CallReceive) && (BeginReceive(x.cycle).outputs == [] || !x.cycle.headWritten)
    ensures WellFramed(Act(x, CallReceive))
  {
    var c, y := x.cycle, Act(x, CallReceive);
    NothingAppended(x.outputs);
    if BeginReceive(c).outputs == [] {
      hide WellFramed;
      FramedAlike(x, y);
    } else {
      assert y.outputs == x.outputs + [Interim];
      assert HeadAt(y.outputs).None?;
      hide HeadFits, WireBody, StreamOf, Closing;
    }
  }

  lemma WireBodyLate(mode: Mode, bodies: seq<bytes>)
    ensures WireBody(mode, bodies, Some(|bodies|)) == WireBody(mode, bodies, None) + INTERIM
  {
    var n := |bodies|;
    assert bodies[..n] == bodies && bodies[n..] == [];
    assert Payload(mode, []) == [];
    hide Payload;
  }

  lemma NoHeadConcat(a: seq<Output>, b: seq<Output>)
    requires NoHead(a) && NoHead(b)
    ensures NoHead(a + b)
  {
  }

  lemma LateReceiveKeepsFramed(x: Exchange)
    requires WellFramed(x) && Enabled(x, CallReceive) && BeginReceive(x.cycle).outputs != [] && x.cycle.headWritten
    ensures WellFramed(Act(x, CallReceive))
  {
    hide HeadFits, StreamOf, HeadAt, After, NoHead, WireBody, Closing;
    var c, y, k := x.cycle, Act(x, CallReceive), HeadAt(x.outputs).value;
    assert x.late.None? && !c.responseComplete;
    InterimStream();
    AppendAfter(x.outputs, [Interim]);
    NoHeadConcat(After(x.outputs), [Interim]);
    HeadFitsAlike(c, y.cycle, x.bodies, x.outputs[k]);
    WireBodyLate(ModeOf(c), x.bodies);
    NotClosing(ModeOf(c));
  }

  lemma FirstHeadFits(c: Cycle, body: bytes, more: bool, shouldClose: bool)
    requires c.responseStarted && !c.headWritten && !c.chunked
    ensures var built := BuildResponse(c, |body|, more, shouldClose);
            HeadFits(built.next.(headWritten := true, responseComplete := !more), [body], built.output)
  {
    BuiltHeadValues(c, |body|, more, shouldClose);
    NoFieldNoValues(c.headers, CONTENT_LENGTH);
    hide ValuesOf, KeptFields, LengthFields, ConnectionFields, AsksToClose, HasField;
  }

  /** The first body message writes the head. */
  lemma FirstBodyKeepsFramed(x: Exchange, body: bytes, more: bool, shouldClose: bool)
    requires WellFramed(x) && x.cycle.responseStarted && !x.cycle.headWritten && !x.cycle.responseComplete
    ensures WellFramed(Act(x, CallSend(ResponseBody(body, more), shouldClose)))
  {
    hide HeadFits, BuildResponse, StreamOf, BodyOutputs, Payload, Closing;
    var c := x.cycle;
    var built := BuildResponse(c, |body|, more, shouldClose);
    var y := Act(x, CallSend(ResponseBody(body, more), shouldClose));
    FirstHeadFits(c, body, more, shouldClose);
    assert y.bodies == [body] by { assert [] + [body] == [body]; }
    var outs := BodyOutputs(ModeOf(y.cycle), body, more);
    BodyOutputsStream(ModeOf(y.cycle), body, more);
    BuiltIsHead(c, |body|, more, shouldClose);
    AppendHead(x.outputs, built.output, outs);
  }

  lemma BuiltIsHead(c: Cycle, n: nat, more: bool, shouldClose: bool)
    ensures var b := BuildResponse(c, n, more, shouldClose);
            b.output.ResponseHead? && b.next.responseStarted == c.responseStarted
  {
  }

  /** Every further body message adds its bytes. */
  lemma NextBodyKeepsFramed(x: Exchange, body: bytes, more: bool, shouldClose: bool)
    requires WellFramed(x) && x.cycle.headWritten && !x.cycle.responseComplete && x.cycle.responseStarted
    ensures WellFramed(Act(x, CallSend(ResponseBody(body, more), shouldClose)))
  {
    hide BuildResponse, StreamOf, BodyOutputs, Payload, Closing, HeadFits, HeadAt, After, NoHead, WireBody;
    var c, y := x.cycle, Act(x, CallSend(ResponseBody(body, more), shouldClose));
    var k, mode := HeadAt(x.outputs).value, ModeOf(c);
    assert y.cycle == c.(responseComplete := !more);
    NextHeadFits(c, x.bodies, body, more, x.outputs[k]);
    var outs := BodyOutputs(mode, body, more);
    assert y.outputs == x.outputs + outs by { assert [] + outs == outs; }
    BodyOutputsStream(mode, body, more);
    AppendAfter(x.outputs, outs);
    NoHeadConcat(After(x.outputs), outs);
    WireBodySnoc(mode, x.bodies, x.late, body);
    NotClosing(mode);
  }

  lemma NextHeadFits(c: Cycle, bodies: seq<bytes>, body: bytes, more: bool, head: Output)
    requires HeadFits(c, bodies, head) && !c.responseComplete
    ensures HeadFits(c.(responseComplete := !more), bodies + [body], head)
  {
    hide ValuesOf;
  }

  lemma NotClosing(mode: Mode)
    ensures Closing(mode, false) == []
  {
  }

  lemma SendKeepsFramed(x: Exchange, m: SendMessage, shouldClose: bool)
    requires WellFramed(x)
    ensures WellFramed(Act(x, CallSend(m, shouldClose)))
  {
    hide HeadFits, SendBody, StreamOf, WireBody, Closing;
    var c := x.cycle;
    if Send(c, m, shouldClose).Sent? {
      if m.ResponseBody? {
        if c.headWritten {
          NextBodyKeepsFramed(x, m.body, m.more, shouldClose);
        } else {
          FirstBodyKeepsFramed(x, m.body, m.more, shouldClose);
        }
      } else {
        NothingAppended(x.outputs);
      }
    }
  }

  lemma ActKeepsFramed(x: Exchange, a: Action)
    requires WellFramed(x) && Enabled(x, a)
    ensures WellFramed(Act(x, a))
  {
    hide WellFramed, Act;
    match a
    case CallReceive => ReceiveKeepsFramed(x);
    case CallSend(m, shouldClose) => SendKeepsFramed(x, m, shouldClose);
    case _ => OtherStepsKeepFramed(x, a);
  }

  lemma {:induction false} RunKeepsFramed(start: Exchange, actions: seq<Action>, x: Exchange)
    requires WellFramed(start) && Reachable(start, actions, x)
    ensures WellFramed(x)
    decreases |actions|
  {
    hide WellFramed, Act, Enabled;
    if actions != [] {
      ActKeepsFramed(start, actions[0]);
      RunKeepsFramed(Act(start, actions[0]), actions[1..], x);
    }
  }
}
