/** `HttpProtocol` and `RequestCycle` in their own form: two kinds of objects that
    update their fields in place. The ghost field `story` is the value that the lemmas
    about runs speak of; every method moves it by the specified step. */
module Protocol {
  import opened Bytes
  import opened ParserSpec
  import opened ParserChunks
  import opened ExchangeSpec
  import opened ConnectionSpec
  import opened ConnectionSafety
  import H = HttpParser

  /** `write`: dropped unless the transport is open. */
  function Written(wire: seq<Write>, transport: Transport, w: Write): seq<Write> {
    if transport.Open? then wire + [w] else wire
  }

  function AllWritten(wire: seq<Write>, transport: Transport, index: nat, outputs: seq<Output>): seq<Write> {
    if transport.Open? then wire + Tagged(index, outputs) else wire
  }

  lemma WrittenOneMore(wire: seq<Write>, transport: Transport, index: nat, outputs: seq<Output>, o: Output)
    ensures AllWritten(wire, transport, index, []) == wire
    ensures Written(AllWritten(wire, transport, index, outputs), transport, ByExchange(index, o))
            == AllWritten(wire, transport, index, outputs + [o])
  {
  }

  class RequestCycle {
    const protocol: HttpProtocol
    const index: nat
    const head: RequestHead
    var keepAlive: bool
    var responseStarted: bool
    var responseComplete: bool
    var bodyComplete: bool
    var disconnected: bool
    var body: bytes
    var continueSent: bool
    var bodyFinished: bool
    var status: int
    var headers: seq<Header>
    var headWritten: bool
    var chunked: bool
    var omitBody: bool

    ghost function State(): Cycle
      reads this
    {
      Cycle(head, keepAlive, responseStarted, responseComplete, bodyComplete, disconnected, body, continueSent,
            bodyFinished, status, headers, headWritten, chunked, omitBody)
    }

    ghost predicate Registered()
      reads protocol
    {
      index < |protocol.cycles| && protocol.cycles[index] == this
    }

    constructor (protocol: HttpProtocol, index: nat, head: RequestHead)
      ensures this.protocol == protocol && this.index == index
      ensures State() == NewCycle(head)
    {
      this.protocol, this.index, this.head := protocol, index, head;
      keepAlive, responseStarted, responseComplete := head.keepAlive, false, false;
      bodyComplete, disconnected, body := false, false, [];
      continueSent, bodyFinished := !head.expectContinue, false;
      status, headers, headWritten, chunked, omitBody := 200, [], false, false, false;
    }

    // -- fed by the protocol ----------------------------------------------------

    method FeedBody(data: bytes)
      modifies this
      ensures State() == old(State()).(body := old(body) + data)
    {
      body := body + data;
    }

    method FeedEom()
      modifies this
      ensures State() == old(State()).(bodyComplete := true)
    {
      bodyComplete := true;
    }

    method OnDisconnect()
      modifies this
      ensures State() == old(State()).(disconnected := true)
    {
      disconnected := true;
    }

    // -- the response head --------------------------------------------------------

    /** One pass over the application's fields: what is passed on, whether a length is
        among it, and whether it asks to close. */
    method TakeFields(allowLength: bool) returns (fields: seq<Header>, hasLength: bool, asks: bool)
      ensures fields == KeptFields(headers, allowLength)
      ensures hasLength <==> allowLength && HasField(headers, CONTENT_LENGTH)
      ensures asks <==> AsksToClose(headers)
    {
      hide Lower, Find, Ascii, KeptFields, HasField, AsksToClose;
      NoFields(allowLength);
      fields, hasLength, asks := [], false, false;
      var i := 0;
      while i < |headers|
        invariant 0 <= i <= |headers|
        invariant fields == KeptFields(headers[..i], allowLength)
        invariant hasLength <==> allowLength && HasField(headers[..i], CONTENT_LENGTH)
        invariant asks <==> AsksToClose(headers[..i])
      {
        var h := headers[i];
        FieldsSnoc(headers[..i], h, allowLength);
        NamesDiffer();
        assert headers[..i + 1] == headers[..i] + [h];
        i := i + 1;
        if h.name == TRANSFER_ENCODING {
          continue;
        }
        if h.name == CONTENT_LENGTH {
          if !allowLength {
            continue;
          }
          hasLength := true;
        } else if h.name == CONNECTION {
          if Find(Lower(h.value), CLOSE).Some? {
            asks := true;
          }
          continue;
        }
        fields := fields + [h];
      }
      assert headers[..i] == headers;
    }

    /** The delimiting that the server adds. */
    method PickLength(omits: bool, hasLength: bool, bodyLength: nat, more: bool) returns (r: Length)
      requires omits <==> OmitsBody(head.verb, status)
      requires hasLength <==> AllowsContentLength(status) && HasField(headers, CONTENT_LENGTH)
      ensures r == ChooseLength(State(), bodyLength, more)
    {
      hide HasField, OmitsBody, AllowsContentLength, Ascii;
      if hasLength {
        return NoLength;
      }
      if omits {
        return if AllowsContentLength(status) && !more then KnownLength(bodyLength) else NoLength;
      }
      return if !more then KnownLength(bodyLength) else if head.version == Http11 then Chunks else ByClosing;
    }

    /** The head, and what the fields become. */
    method DecideHead(bodyLength: nat, more: bool) returns (o: Output, omits: bool, inChunks: bool, alive: bool)
      ensures BuildResponse(State(), bodyLength, more, protocol.closing || protocol.shouldExit) ==
              BuiltResponse(State().(omitBody := omits, chunked := inChunks, keepAlive := alive), o)
    {
      hide BuildResponse, KeptFields, HasField, AsksToClose, OmitsBody, AllowsContentLength, LengthFields, ConnectionFields;
      hide Ascii, ChooseLength;
      omits := OmitsBody(head.verb, status);
      var fields, hasLength, asks := TakeFields(AllowsContentLength(status));
      var length := PickLength(omits, hasLength, bodyLength, more);
      // An unread request body would be mistaken for the next request.
      alive := keepAlive && !asks && !length.ByClosing? && bodyComplete && !(protocol.closing || protocol.shouldExit);
      inChunks := chunked || length.Chunks?;
      BuiltIs(State(), bodyLength, more, protocol.closing || protocol.shouldExit, length, omits, inChunks, alive, fields);
      o := ResponseHead(status, fields + LengthFields(length) + ConnectionFields(alive, head.version));
    }

    method BuildHead(bodyLength: nat, more: bool) returns (o: Output)
      modifies this
      ensures var b := BuildResponse(old(State()), bodyLength, more, protocol.closing || protocol.shouldExit);
              State() == b.next && o == b.output
    {
      hide BuildResponse;
      var omits, inChunks, alive;
      o, omits, inChunks, alive := DecideHead(bodyLength, more);
      SetOmitBody(omits);
      SetChunked(inChunks);
      SetKeepAlive(alive);
    }

    method SetOmitBody(value: bool)
      modifies `omitBody
      ensures State() == old(State()).(omitBody := value)
    {
      omitBody := value;
    }

    method SetChunked(value: bool)
      modifies `chunked
      ensures State() == old(State()).(chunked := value)
    {
      chunked := value;
    }

    method SetKeepAlive(value: bool)
      modifies `keepAlive
      ensures State() == old(State()).(keepAlive := value)
    {
      keepAlive := value;
    }

    // -- the application's calls -----------------------------------------------------

    method Write(o: Output, ghost written: seq<Output>, ghost start: seq<Write>)
      requires protocol.wire == AllWritten(start, protocol.transport, index, written)
      modifies protocol`wire
      ensures protocol.wire == AllWritten(start, protocol.transport, index, written + [o])
    {
      protocol.Write(ByExchange(index, o));
      WrittenOneMore(start, protocol.transport, index, written, o);
    }

    /** `receive` up to where it waits. */
    method BeginReceive() returns (w: Waiting)
      modifies this, protocol`wire
      ensures var b := ExchangeSpec.BeginReceive(old(State()));
              && State() == b.next && w == b.waiting
              && protocol.wire == AllWritten(old(protocol.wire), protocol.transport, index, b.outputs)
    {
      WrittenOneMore(protocol.wire, protocol.transport, index, [], Interim);
      if responseComplete {
        return Returns;
      }
      if !continueSent {
        continueSent := true;
        Write(Interim, [], protocol.wire);
      }
      return if bodyFinished then ForEnd else ForBody;
    }

    /** The rest of a `receive` call, once it need not wait any more. */
    method FinishReceive(w: Waiting) returns (m: ReceivedMessage)
      requires Poll(State(), w).Delivered?
      modifies this
      ensures Poll(old(State()), w) == Delivered(State(), m)
    {
      if !w.ForBody? || (body == [] && !bodyComplete) {
        return Disconnected;
      }
      var data := body;
      body, bodyFinished := [], bodyComplete;
      return RequestBody(data, !bodyComplete);
    }

    /** `ok` is false where `send` raises. */
    method Send(m: SendMessage) returns (ok: bool)
      modifies this, protocol`wire
      ensures match ExchangeSpec.Send(old(State()), m, protocol.closing || protocol.shouldExit)
              case SendRaises => !ok && State() == old(State()) && protocol.wire == old(protocol.wire)
              case Sent(next, outputs) =>
                && ok && State() == next
                && protocol.wire == AllWritten(old(protocol.wire), protocol.transport, index, outputs)
    {
      hide ExchangeSpec.SendBody, LowerNames, AllWritten;
      WrittenOneMore(protocol.wire, protocol.transport, index, [], Interim);
      if responseComplete {
        return false;
      }
      if !responseStarted {
        if !m.ResponseStart? {
          return false;
        }
        responseStarted, status, headers := true, m.status, LowerNames(m.headers);
        return true;
      }
      if !m.ResponseBody? {
        return false;
      }
      SendBody(m.body, m.more);
      return true;
    }

    method SendBody(data: bytes, more: bool)
      modifies this, protocol`wire
      ensures var s := ExchangeSpec.SendBody(old(State()), data, more, protocol.closing || protocol.shouldExit);
              && State() == s.next
              && protocol.wire == AllWritten(old(protocol.wire), protocol.transport, index, s.outputs)
    {
      hide BuildResponse, AllWritten, BodyOutputs;
      ghost var start, written := protocol.wire, [];
      WrittenOneMore(start, protocol.transport, index, [], Interim);
      if !headWritten {
        var h := BuildHead(|data|, more);
        Write(h, written, start);
        written := written + [h];
        assert written == [h];
        SetHeadWritten();
      }
      WriteBody(data, more, written, start);
      SetResponseComplete(!more);
    }

    method SetHeadWritten()
      modifies `headWritten
      ensures State() == old(State()).(headWritten := true)
    {
      headWritten := true;
    }

    method SetResponseComplete(value: bool)
      modifies `responseComplete
      ensures State() == old(State()).(responseComplete := value)
    {
      responseComplete := value;
    }

    method WriteBody(data: bytes, more: bool, ghost front: seq<Output>, ghost start: seq<Write>)
      requires protocol.wire == AllWritten(start, protocol.transport, index, front)
      modifies protocol`wire
      ensures protocol.wire == AllWritten(start, protocol.transport, index, front + BodyOutputs(ModeOf(State()), data, more))
    {
      hide AllWritten, EncodeChunk;
      ghost var written := front;
      if data != [] && !omitBody {
        if chunked {
          Write(Data(EncodeChunk(data)), written, start);
          written := written + [Data(EncodeChunk(data))];
        } else {
          Write(Data(data), written, start);
          written := written + [Data(data)];
        }
      }
      if !more && chunked && !omitBody {
        Write(Data(LAST_CHUNK), written, start);
        written := written + [Data(LAST_CHUNK)];
      }
      assert written == front + BodyOutputs(ModeOf(State()), data, more);
    }
  }

  /** `d` is `c` after a step of exchange `i` that leaves its cycle as `next`. */
  predicate Stepped(c: Conn, d: Conn, i: nat, next: Cycle, wire: seq<Write>) {
    && i < |c.exchanges| && |d.exchanges| == |c.exchanges| && d == c.(exchanges := d.exchanges, wire := wire, seen := d.seen)
    && d.exchanges[i].cycle == next
    && forall j :: 0 <= j < |c.exchanges| && j != i ==> d.exchanges[j] == c.exchanges[j]
  }

  lemma WakeUpIs(c: Conn, i: nat, w: Waiting)
    requires Indexed(c) && i < |c.exchanges| && w in c.exchanges[i].calls
    requires Poll(c.exchanges[i].cycle, w).Delivered?
    ensures var d, x := StepExchange(c, i, Wake(w)), c.exchanges[i];
            Indexed(d) && Enabled(x, Wake(w)) &&
            WakeUp(c, i, w) == if Poll(x.cycle, w).message.RequestBody? then MaybeResumeReading(d) else d
  {
    hide MaybeResumeReading, Act, Poll;
  }

  lemma StepIs(c: Conn, i: nat, a: Action, outputs: seq<Output>)
    requires i < |c.exchanges| && Enabled(c.exchanges[i], a)
    ensures var d := Put(StepExchange(c, i, a), i, outputs);
            Stepped(c, d, i, Act(c.exchanges[i], a).cycle, AllWritten(c.wire, c.transport, i, outputs))
    ensures Stepped(c, StepExchange(c, i, a), i, Act(c.exchanges[i], a).cycle, c.wire)
  {
    hide Act, Enabled;
  }

  lemma NoFields(allowLength: bool)
    ensures KeptFields([], allowLength) == [] && !HasField([], CONTENT_LENGTH) && !AsksToClose([])
  {
  }

  lemma NamesDiffer()
    ensures CONTENT_LENGTH != TRANSFER_ENCODING && CONTENT_LENGTH != CONNECTION && CONNECTION != TRANSFER_ENCODING
  {
    assert |CONTENT_LENGTH| == 14 && |TRANSFER_ENCODING| == 17 && |CONNECTION| == 10;
  }

  lemma FieldsSnoc(front: seq<Header>, h: Header, allowLength: bool)
    ensures KeptFields(front + [h], allowLength) ==
            if h.name == TRANSFER_ENCODING || h.name == CONNECTION || (h.name == CONTENT_LENGTH && !allowLength)
            then KeptFields(front, allowLength) else KeptFields(front, allowLength) + [h]
    ensures HasField(front + [h], CONTENT_LENGTH) <==> HasField(front, CONTENT_LENGTH) || h.name == CONTENT_LENGTH
    ensures AsksToClose(front + [h]) <==>
            AsksToClose(front) || (h.name == CONNECTION && Find(Lower(h.value), CLOSE).Some?)
  {
    hide Lower, Find;
    var all := front + [h];
    assert all[..|all| - 1] == front && all[|all| - 1] == h;
    assert forall i :: 0 <= i < |front| ==> all[i] == front[i];
  }

  lemma BuiltIs(c: Cycle, bodyLength: nat, more: bool, shouldClose: bool,
                length: Length, omits: bool, inChunks: bool, alive: bool, kept: seq<Header>)
    requires length == ChooseLength(c, bodyLength, more) && omits == OmitsBody(c.head.verb, c.status)
    requires inChunks == (c.chunked || length.Chunks?) && alive == StaysAlive(c, length, shouldClose)
    requires kept == KeptFields(c.headers, AllowsContentLength(c.status))
    ensures BuildResponse(c, bodyLength, more, shouldClose) ==
            BuiltResponse(c.(omitBody := omits, chunked := inChunks, keepAlive := alive),
                          ResponseHead(c.status, kept + LengthFields(length) + ConnectionFields(alive, c.head.version)))
  {
    hide ChooseLength, KeptFields, OmitsBody, LengthFields, StaysAlive, AllowsContentLength;
  }

  class HttpProtocol {
    const cfg: Config
    const parser: H.HttpParser
    var cycle: RequestCycle?
    var upgraded: bool
    var closing: bool
    var shouldExit: bool
    var readPaused: bool
    var transport: Transport
    var wire: seq<Write>
    var begun: nat
    ghost var cycles: seq<RequestCycle>
    ghost var Repr: set<object>
    ghost var story: Conn

    /** The fields are those of the value `s`. */
    ghost predicate Mirrors(s: Conn)
      reads `cycle, `upgraded, `closing, `shouldExit, `readPaused, `transport, `wire, `begun, `cycles, parser
    {
      && Indexed(s) && s.cfg == cfg && s.parser == parser.State() && s.upgraded == upgraded && s.closing == closing
      && s.shouldExit == shouldExit && s.readPaused == readPaused && s.transport == transport && s.wire == wire
      && |s.exchanges| == |cycles| == begun && (cycle == null <==> s.current.None?)
      && (cycle != null ==> cycle == cycles[s.current.value])
    }

    ghost predicate Holds(s: Conn)
      reads `cycles, `Repr, cycles
    {
      && |s.exchanges| == |cycles| && this in Repr && parser in Repr
      && forall i :: 0 <= i < |cycles| ==>
           && cycles[i] in Repr && cycles[i].protocol == this && cycles[i].index == i && cycles[i].State() == s.exchanges[i].cycle
    }

    ghost predicate Consistent()
      reads this, parser, cycles
    {
      Mirrors(story) && Holds(story)
    }

    /** The objects are those of the value, and the value is one that a run reaches. */
    ghost predicate Valid()
      reads this, parser, cycles
    {
      Consistent() && Live(story)
    }

    constructor (cfg: Config)
      ensures Valid() && story == NewConn(cfg) && fresh(Repr)
    {
      NewIsLive(cfg);
      hide Live;
      this.cfg := cfg;
      parser := new H.HttpParser(cfg.limits);
      cycle, upgraded, closing, shouldExit, readPaused := null, false, false, false, false;
      transport, wire, begun := Open, [], 0;
      cycles, story, Repr := [], NewConn(cfg), {this, parser};
    }

    // -- writing and reading -------------------------------------------------------------

    method Write(w: Write)
      modifies `wire
      ensures wire == Written(old(wire), transport, w)
    {
      if transport.Open? {
        wire := wire + [w];
      }
    }

    method Close()
      requires Consistent()
      modifies this
      ensures Consistent() && cycles == old(cycles) && Repr == old(Repr) && story == CloseTransport(old(story))
    {
      story := CloseTransport(story);
      if transport.Open? {
        transport := ClosingDown;
      }
    }

    method UpdateReadPause()
      requires Consistent()
      modifies this
      ensures Consistent() && cycles == old(cycles) && Repr == old(Repr) && story == ConnectionSpec.UpdateReadPause(old(story))
    {
      story := ConnectionSpec.UpdateReadPause(story);
      if cycle != null && transport.Open? && |cycle.body| >= cfg.highWater {
        readPaused := true;
      }
    }

    method MaybeResumeReading()
      requires Consistent()
      modifies this
      ensures Consistent() && cycles == old(cycles) && Repr == old(Repr) && story == ConnectionSpec.MaybeResumeReading(old(story))
    {
      story := ConnectionSpec.MaybeResumeReading(story);
      if !readPaused {
        return;
      }
      if cycle != null && |cycle.body| > cfg.lowWater {
        return;
      }
      if transport.Open? {
        readPaused := false;
      }
    }

    // -- errors ------------------------------------------------------------------------

    method Fail(status: int)
      requires Consistent()
      modifies this
      ensures Consistent() && cycles == old(cycles) && Repr == old(Repr) && story == FailWith(old(story), status)
    {
      CurrentIs();
      if !transport.Open? {
        return;
      }
      if cycle != null && cycle.responseStarted {
        Close();
        return;
      }
      Abandon(status);
    }

    method Abandon(status: int)
      requires Consistent() && transport.Open?
      modifies this
      ensures Consistent() && cycles == old(cycles) && Repr == old(Repr)
      ensures story == CloseTransport(old(story).(current := None, wire := old(story).wire + [ErrorAnswer(status)]))
    {
      story := story.(current := None, wire := story.wire + [ErrorAnswer(status)]);
      cycle := null;
      Write(ErrorAnswer(status));
      Close();
    }

    method OnAppError(c: RequestCycle)
      requires Consistent() && c.protocol == this && c.Registered()
      modifies this
      ensures Consistent() && cycles == old(cycles) && Repr == old(Repr) && story == ConnectionSpec.OnAppError(old(story), c.index)
    {
      if cycle == c {
        story := story.(current := None);
        cycle := null;
      }
      if !c.responseStarted {
        Fail(500);
      } else {
        Close();
      }
    }

    // -- parsing --------------------------------------------------------------------------

    /** What the parser's event does: begin an exchange, or hand body bytes to the one
        in progress. */
    method HandleEvent(e: Event)
      requires Consistent()
      requires cycle != null && !e.Head? ==> !cycle.bodyComplete
      modifies this, if cycle == null then {} else {cycle}
      ensures Consistent() && old(cycles) <= cycles && old(Repr) <= Repr && fresh(Repr - old(Repr))
      ensures story == OnEvent(old(story), e)
    {
      if e.Head? {
        BeginRequest(e.head);
      } else if cycle != null {
        HandOver(e);
      } else {
        story := OnEvent(story, e);
      }
    }

    method HandOver(e: Event)
      requires Consistent() && cycle != null && !e.Head? && !cycle.bodyComplete
      modifies this, cycle
      ensures Consistent() && old(cycles) == cycles && Repr == old(Repr) && story == OnEvent(old(story), e)
    {
      hide OnEvent, HttpProtocol.Mirrors, HttpProtocol.Holds, Stepped;
      CurrentIs();
      WireIs();
      RegisteredIs(cycle);
      EventIs(story, e, BodyAction(e));
      ghost var next := OnEvent(story, e);
      if e.BodyData? {
        cycle.FeedBody(e.data);
      } else {
        cycle.FeedEom();
      }
      CycleStepped(cycle, next);
      story := next;
    }

    method BeginRequest(head: RequestHead)
      requires Consistent()
      modifies this
      ensures Consistent() && old(cycles) <= cycles && old(Repr) <= Repr && fresh(Repr - old(Repr))
      ensures story == OnEvent(old(story), Head(head))
    {
      hide IsUpgrade;
      if IsUpgrade(head) {
        story := OnEvent(story, Head(head));
        upgraded, closing := true, true;
      } else {
        OpenCycle(head);
      }
    }

    method OpenCycle(head: RequestHead)
      requires Consistent() && !IsUpgrade(head)
      modifies this
      ensures Consistent() && old(cycles) <= cycles && old(Repr) <= Repr && fresh(Repr - old(Repr))
      ensures story == OnEvent(old(story), Head(head))
    {
      hide IsUpgrade, OnEvent, NewExchange, NewCycle, HttpProtocol.Mirrors, HttpProtocol.Holds;
      BegunIs();
      HeadIs(story, head);
      ghost var next := OnEvent(story, Head(head));
      cycle := new RequestCycle(this, begun, head);
      begun := begun + 1;
      cycles, Repr := cycles + [cycle], Repr + {cycle};
      CycleJoined(cycle, next);
      story := next;
    }

    method PullEvent() returns (o: Outcome)
      requires Consistent()
      modifies this, parser
      ensures Consistent() && cycles == old(cycles) && Repr == old(Repr)
      ensures var t := NextEvent(old(story.parser)); o == t.outcome && story == old(story).(parser := t.next)
    {
      hide NextEvent;
      o := parser.NextEvent();
      story := story.(parser := parser.State());
    }

    /** One turn of the loop. */
    method ParseEvent() returns (o: Outcome)
      requires Valid()
      modifies Repr
      ensures Valid() && old(cycles) <= cycles && old(Repr) <= Repr && fresh(Repr - old(Repr))
      ensures match o
              case Got(_) =>
                && Parsed(story) == old(Parsed(story))
                && (|story.parser.buffer| < |old(story.parser.buffer)|
                || (story.parser.buffer == old(story.parser.buffer) && Rank(story.parser.phase) < old(Rank(story.parser.phase))))
              case NeedsData => story == old(Parsed(story)) && story.parser.error.None?
              case Raised(e) => story == old(Parsed(story)) && story.parser.error == Some(e)
    {
      hide Live, OnEvent, NextEvent, Parsed, HttpProtocol.Mirrors, HttpProtocol.Holds;
      CurrentIs();
      NextIs(story);
      o := PullEvent();
      if o.Got? {
        CurrentIs();
        HandleEvent(o.event);
      }
    }

    lemma CurrentIs()
      requires Consistent()
      ensures Indexed(story) && this in Repr && parser in Repr && transport == story.transport && (cycle == null <==> story.current.None?)
      ensures cycle != null ==> cycle in Repr && cycle.protocol == this && cycle.Registered() && cycle.index == story.current.value
      ensures cycle != null ==> cycle.State() == story.exchanges[story.current.value].cycle
    {
    }

    /** Every event the buffered bytes give, then the error that ends them, if any. */
    method ResumeParsing()
      requires Valid()
      modifies Repr
      ensures Valid() && old(cycles) <= cycles && old(Repr) <= Repr && fresh(Repr - old(Repr))
      ensures story == ConnectionSpec.ResumeParsing(old(story))
    {
      hide SoundFor, Unfinished, Parsed, HttpProtocol.Mirrors, HttpProtocol.Holds, ConnectionSpec.ResumeParsing, FailWith, ConnectionSpec.UpdateReadPause;
      CurrentIs();
      ResumeKeepsLive(story);
      ResumeIs(story);
      if transport.Lost? {
        return;
      }
      ghost var target := Parsed(story);
      while true
        invariant Valid() && Indexed(story) && this in Repr && Parsed(story) == target
        invariant old(cycles) <= cycles && old(Repr) <= Repr && fresh(Repr - old(Repr))
        decreases |story.parser.buffer|, Rank(story.parser.phase)
      {
        var o := ParseEvent();
        CurrentIs();
        match o
        case Got(_) =>
        case NeedsData =>
          UpdateReadPause();
          return;
        case Raised(e) =>
          assert story == target && target.parser.error == Some(e);
          Fail(e.Status());
          return;
      }
    }

    // -- the end of a response --------------------------------------------------------------

    method OnResponseComplete(c: RequestCycle)
      requires Consistent() && c.protocol == this && c.Registered() && SoundFor(story, story.parser)
      requires c.responseComplete && (cycle != c ==> Unfinished(story))
      modifies Repr
      ensures Valid() && old(cycles) <= cycles && old(Repr) <= Repr && fresh(Repr - old(Repr))
      ensures story == ConnectionSpec.OnResponseComplete(old(story), c.index)
    {
      hide SoundFor, Unfinished, ConnectionSpec.MaybeResumeReading, ConnectionSpec.ResumeParsing;
      hide HttpProtocol.Mirrors, HttpProtocol.Holds;
      CurrentIs();
      RegisteredIs(c);
      if cycle != c {
        return;
      }
      BetweenIsLive(story, c.index);
      ghost var keepAlive := story.exchanges[c.index].cycle.keepAlive;
      LeaveExchange();
      CurrentIs();
      RegisteredIs(c);
      CloseOrContinue(c.keepAlive);
    }

    method LeaveExchange()
      requires Consistent()
      modifies this
      ensures Consistent() && cycles == old(cycles) && Repr == old(Repr)
      ensures story == ConnectionSpec.MaybeResumeReading(old(story).(current := None))
    {
      story := story.(current := None);
      cycle := null;
      MaybeResumeReading();
    }

    /** Keep the connection only if the exchange agreed, nothing asks to close, and the
        request was read to its end; then a pipelined request may already be buffered. */
    method CloseOrContinue(keepAlive: bool)
      requires Valid() && (story.parser.phase == Complete ==> Live(story.(parser := StartNext(story.parser))))
      modifies Repr
      ensures Valid() && old(cycles) <= cycles && old(Repr) <= Repr && fresh(Repr - old(Repr))
      ensures story == if !old(story).transport.Open? then old(story)
                       else if !keepAlive || ShouldClose(old(story)) || old(story).parser.phase != Complete
                       then CloseTransport(old(story))
                       else ConnectionSpec.ResumeParsing(old(story).(parser := StartNext(old(story).parser)))
    {
      hide SoundFor, Unfinished, ConnectionSpec.ResumeParsing;
      FlagsAre();
      if !transport.Open? {
        return;
      }
      if !keepAlive || closing || shouldExit || parser.phase != Complete {
        CloseKeepsLive(story);
        Close();
        return;
      }
      StartNextMessage();
      ResumeParsing();
    }

    lemma FlagsAre()
      requires Consistent()
      ensures Indexed(story) && this in Repr && parser in Repr && transport == story.transport
      ensures ShouldClose(story) == (closing || shouldExit) && upgraded == story.upgraded && parser.State() == story.parser
    {
    }

    method StartNextMessage()
      requires Consistent() && parser.phase == Complete
      modifies this, parser
      ensures Consistent() && cycles == old(cycles) && Repr == old(Repr)
      ensures story == old(story).(parser := StartNext(old(story.parser)))
    {
      var ok := parser.StartNextMessage();
      story := story.(parser := parser.State());
    }

    lemma RegisteredIs(c: RequestCycle)
      requires Consistent() && c.protocol == this && c.Registered()
      ensures c in Repr && c.index < |story.exchanges| && c.State() == story.exchanges[c.index].cycle
      ensures cycle == c <==> story.current == Some(c.index)
    {
    }

    // -- one exchange's calls, and what they ask of the protocol -------------------------------

    method AppReceive(c: RequestCycle) returns (w: Waiting)
      requires Valid() && c.protocol == this && c.Registered()
      modifies this, c
      ensures Valid() && cycles == old(cycles) && Repr == old(Repr) && story == Receive(old(story), c.index)
      ensures w == BeginReceive(old(c.State())).waiting
    {
      hide SoundFor, Unfinished, StepExchange, Put, HttpProtocol.Mirrors, HttpProtocol.Holds, BeginReceive, Stepped, AllWritten;
      RegisteredIs(c);
      WireIs();
      ReceiveKeepsLive(story, c.index);
      StepIs(story, c.index, CallReceive, BeginReceive(c.State()).outputs);
      ghost var next := Receive(story, c.index);
      w := c.BeginReceive();
      CycleStepped(c, next);
      story := next;
    }

    method AppWake(c: RequestCycle, w: Waiting) returns (m: ReceivedMessage)
      requires Valid() && c.protocol == this && c.Registered()
      requires w in story.exchanges[c.index].calls && Poll(c.State(), w).Delivered?
      modifies this, c
      ensures Valid() && cycles == old(cycles) && Repr == old(Repr) && story == WakeUp(old(story), c.index, w)
      ensures m == Poll(old(c.State()), w).message
    {
      hide SoundFor, Unfinished, StepExchange, HttpProtocol.Mirrors, HttpProtocol.Holds, Poll, Stepped, WakeUp;
      hide ConnectionSpec.MaybeResumeReading;
      RegisteredIs(c);
      WireIs();
      WakeUpIs(story, c.index, w);
      WakeKeepsLive(story, c.index, w);
      StepIs(story, c.index, Wake(w), []);
      ghost var next := StepExchange(story, c.index, Wake(w));
      m := c.FinishReceive(w);
      CycleStepped(c, next);
      story := next;
      if m.RequestBody? {
        MaybeResumeReading();
      }
    }

    /** `ok` is false where `send` raises. */
    method AppSend(c: RequestCycle, m: SendMessage) returns (ok: bool)
      requires Valid() && c.protocol == this && c.Registered()
      modifies Repr
      ensures Valid() && old(cycles) <= cycles && old(Repr) <= Repr && fresh(Repr - old(Repr))
      ensures story == Respond(old(story), c.index, m)
      ensures ok <==> Send(old(c.State()), m, ShouldClose(old(story))).Sent?
    {
      hide SoundFor, Unfinished, StepExchange, Put, HttpProtocol.Mirrors, HttpProtocol.Holds, Stepped, Send, AllWritten;
      hide ConnectionSpec.OnResponseComplete, Act;
      FlagsAre();
      WireIs();
      RegisteredIs(c);
      ghost var a := CallSend(m, ShouldClose(story));
      ghost var s := Send(c.State(), m, ShouldClose(story));
      ghost var next := if s.Sent? then Put(StepExchange(story, c.index, a), c.index, s.outputs) else story;
      if s.Sent? {
        SentKeepsSound(story, c.index, m);
        SendIs(story.exchanges[c.index], m, ShouldClose(story));
        StepIs(story, c.index, a, s.outputs);
      }
      ok := c.Send(m);
      if !ok {
        Unmoved(c);
        return;
      }
      CycleStepped(c, next);
      story := next;
      if c.responseComplete {
        RegisteredIs(c);
        OnResponseComplete(c);
      }
    }

    /** After the application returned, or raised. */
    method FinishRun(c: RequestCycle, raised: bool)
      requires Valid() && c.protocol == this && c.Registered()
      modifies Repr
      ensures Valid() && old(cycles) <= cycles && old(Repr) <= Repr && fresh(Repr - old(Repr))
      ensures story == EndRun(old(story), c.index, raised)
    {
      hide SoundFor, Unfinished, HttpProtocol.Mirrors, HttpProtocol.Holds, Send, Respond, ConnectionSpec.OnAppError;
      FlagsAre();
      RegisteredIs(c);
      EndKeepsLive(story, c.index, raised);
      if raised || !c.responseStarted {
        OnAppError(c);
      } else if !c.responseComplete {
        var _ := AppSend(c, ResponseBody([], false));
      }
      Ends(c.index);
    }

    ghost method Ends(i: nat)
      requires Consistent()
      modifies `story
      ensures Consistent() && story == old(story).(ended := old(story).ended + {i})
    {
      story := story.(ended := story.ended + {i});
    }

    // -- the peer, the timers and the server -----------------------------------------------------

    method DataReceived(data: bytes)
      requires Valid() && CanAct(story, ConnAction.DataReceived(data))
      modifies Repr
      ensures Valid() && old(cycles) <= cycles && old(Repr) <= Repr && fresh(Repr - old(Repr))
      ensures story == ActOn(old(story), ConnAction.DataReceived(data))
    {
      hide SoundFor, Unfinished, ConnectionSpec.ResumeParsing;
      FlagsAre();
      if upgraded {
        FeedKeepsLive(story, data);
        story := story.(framed := story.framed + data);
        return;
      }
      FeedKeepsLive(story, data);
      parser.FeedData(data);
      story := story.(parser := parser.State(), received := story.received + data);
      ResumeParsing();
    }

    method EofReceived()
      requires Valid() && CanAct(story, ConnAction.EofReceived)
      modifies Repr
      ensures Valid() && old(cycles) <= cycles && old(Repr) <= Repr && fresh(Repr - old(Repr))
      ensures story == ActOn(old(story), ConnAction.EofReceived)
    {
      hide SoundFor, Unfinished, ConnectionSpec.ResumeParsing, Disconnect, HttpProtocol.Mirrors, HttpProtocol.Holds;
      FlagsAre();
      FeedKeepsLive(story, []);
      FeedKeepsLive(story.(parser := story.parser.(eof := true)), []);
      MarkEof();
      CurrentIs();
      if cycle == null {
        CloseKeepsLive(story);
        Close();
        return;
      }
      MarkClosing();
      ResumeParsing();
      DisconnectKeepsLive(story);
      CurrentIs();
      TellCycle();
    }

    method MarkEof()
      requires Consistent()
      modifies this, parser
      ensures Consistent() && cycles == old(cycles) && Repr == old(Repr)
      ensures story == old(story).(parser := old(story).parser.(eof := true))
    {
      parser.FeedEof();
      story := story.(parser := parser.State());
    }

    method MarkClosing()
      requires Consistent()
      modifies this
      ensures Consistent() && cycles == old(cycles) && Repr == old(Repr) && story == old(story).(closing := true)
    {
      closing := true;
      story := story.(closing := true);
    }

    method TellCycle()
      requires Consistent()
      modifies this, if cycle == null then {} else {cycle}
      ensures Consistent() && cycles == old(cycles) && Repr == old(Repr) && story == Disconnect(old(story))
    {
      CurrentIs();
      if cycle != null {
        StepIs(story, story.current.value, Action.OnDisconnect, []);
        hide StepExchange, HttpProtocol.Mirrors, HttpProtocol.Holds, Stepped;
        WireIs();
        RegisteredIs(cycle);
        ghost var next := Disconnect(story);
        cycle.OnDisconnect();
        CycleStepped(cycle, next);
        story := next;
      }
    }

    method ConnectionLost()
      requires Valid() && CanAct(story, ConnAction.ConnectionLost)
      modifies Repr
      ensures Valid() && cycles == old(cycles) && Repr == old(Repr)
      ensures story == ActOn(old(story), ConnAction.ConnectionLost)
    {
      hide SoundFor, Unfinished, Disconnect;
      FlagsAre();
      LostKeepsLive(story);
      transport := Lost;
      story := story.(transport := Lost);
      DisconnectKeepsLive(story);
      CurrentIs();
      TellCycle();
    }

    method OnIdleTimeout()
      requires Valid() && CanAct(story, IdleTimeout)
      modifies this
      ensures Valid() && cycles == old(cycles) && Repr == old(Repr) && story == ActOn(old(story), IdleTimeout)
    {
      hide SoundFor, Unfinished;
      CloseKeepsLive(story);
      if cycle == null {
        Close();
      }
    }

    method OnHeaderTimeout()
      requires Valid() && CanAct(story, HeaderTimeout)
      modifies this
      ensures Valid() && cycles == old(cycles) && Repr == old(Repr) && story == ActOn(old(story), HeaderTimeout)
    {
      hide SoundFor, Unfinished, FailWith;
      FailKeepsLive(story, 408);
      if cycle == null {
        Fail(408);
      }
    }

    method Shutdown()
      requires Valid() && CanAct(story, ConnAction.Shutdown)
      modifies this
      ensures Valid() && cycles == old(cycles) && Repr == old(Repr) && story == ActOn(old(story), ConnAction.Shutdown)
    {
      hide SoundFor, Unfinished, HttpProtocol.Mirrors, HttpProtocol.Holds;
      FeedKeepsLive(story, []);
      MarkClosing();
      CurrentIs();
      CloseKeepsLive(story);
      if cycle == null {
        Close();
      }
    }

    lemma WireIs()
      requires Consistent()
      ensures wire == story.wire && transport == story.transport
    {
    }

    /** The fields that a cycle never touches. */
    twostate predicate OnlyWritten()
      reads this, parser
    {
      && unchanged(parser) && cycle == old(cycle) && upgraded == old(upgraded) && closing == old(closing)
      && shouldExit == old(shouldExit) && readPaused == old(readPaused) && transport == old(transport)
      && begun == old(begun) && cycles == old(cycles) && Repr == old(Repr)
    }

    lemma BegunIs()
      requires Consistent()
      ensures begun == |cycles| == |story.exchanges| && Indexed(story)
    {
    }

    /** Only the new cycle `c` was added. */
    twostate predicate OnlyJoined(new c: RequestCycle)
      reads this, parser
    {
      && unchanged(parser) && upgraded == old(upgraded) && closing == old(closing)
      && shouldExit == old(shouldExit) && readPaused == old(readPaused) && transport == old(transport)
      && wire == old(wire) && begun == old(begun) + 1 && cycle == c
      && cycles == old(cycles) + [c] && Repr == old(Repr) + {c}
    }

    twostate lemma CycleJoined(new c: RequestCycle, new d: Conn)
      requires old(Consistent()) && c.protocol == this && c.index == |old(cycles)| && OnlyJoined(c)
      requires forall x :: x in old(cycles) ==> unchanged(x)
      requires d == old(story).(exchanges := d.exchanges, current := Some(|old(cycles)|), seen := d.seen)
      requires |d.exchanges| == |old(cycles)| + 1 && d.exchanges[..|old(cycles)|] == old(story).exchanges
      requires d.exchanges[|old(cycles)|].cycle == c.State()
      ensures Mirrors(d) && Holds(d)
    {
      var n := |old(cycles)|;
      forall j | 0 <= j < n + 1
        ensures cycles[j] in Repr && cycles[j].protocol == this && cycles[j].index == j && cycles[j].State() == d.exchanges[j].cycle
      {
        if j < n {
          var x := cycles[j];
          assert x == old(cycles)[j] && x in old(cycles);
          assert old(x.State()) == old(story).exchanges[j].cycle;
          assert d.exchanges[..n][j] == d.exchanges[j];
        } else {
          assert cycles[j] == c;
        }
      }
    }

    /** Where only one cycle was updated and written for, the objects are again those of
        the value `d`. */
    twostate lemma CycleStepped(c: RequestCycle, new d: Conn)
      requires old(Consistent()) && old(c.Registered()) && c.protocol == this && OnlyWritten()
      requires forall x :: x in cycles && x != c ==> unchanged(x)
      requires Stepped(old(story), d, c.index, c.State(), wire)
      ensures Mirrors(d) && Holds(d)
    {
      forall j | 0 <= j < |cycles|
        ensures cycles[j] in Repr && cycles[j].protocol == this && cycles[j].index == j && cycles[j].State() == d.exchanges[j].cycle
      {
        assert old(cycles[j].State()) == old(story).exchanges[j].cycle;
        if j != c.index {
          var x := cycles[j];
          assert x in cycles && x != c;
          assert unchanged(x);
        } else {
          assert cycles[j] == c;
        }
      }
    }

    /** A call that raised has changed nothing. */
    twostate lemma Unmoved(c: RequestCycle)
      requires old(Consistent()) && old(c.Registered()) && c.protocol == this && OnlyWritten() && wire == old(wire)
      requires forall x :: x in cycles && x != c ==> unchanged(x)
      requires c.State() == old(c.State()) && story == old(story)
      ensures Consistent()
    {
      forall j | 0 <= j < |cycles|
        ensures cycles[j] in Repr && cycles[j].protocol == this && cycles[j].index == j && cycles[j].State() == story.exchanges[j].cycle
      {
        var x := cycles[j];
        assert old(x.State()) == story.exchanges[j].cycle;
        assert x in cycles;
        if x != c { assert unchanged(x); }
      }
    }
  }

  /** What `ResumeParsing` makes of the buffered bytes before it looks at errors. */
  function Parsed(c: Conn): Conn
    requires Indexed(c)
  {
    var d := Drain(c.parser, false);
    OnEvents(c.(parser := d.next), d.events)
  }

  lemma ResumeIs(c: Conn)
    requires Indexed(c)
    ensures ConnectionSpec.ResumeParsing(c) ==
            if c.transport.Lost? then c
            else if Parsed(c).parser.error.Some? then FailWith(Parsed(c), Parsed(c).parser.error.value.Status())
            else UpdateReadPause(Parsed(c))
  {
    var d := Drain(c.parser, false);
    EventsOnlyFeed(c.(parser := d.next), d.events);
    hide Drain, OnEvents, FailWith, UpdateReadPause;
  }

  lemma StepKeepsParser(c: Conn, i: nat, a: Action, p: Parser)
    requires i < |c.exchanges|
    ensures StepExchange(c, i, a).parser == c.parser
    ensures StepExchange(c.(parser := p), i, a) == StepExchange(c, i, a).(parser := p)
  {
    hide Act, Enabled;
  }

  lemma EventKeepsParser(c: Conn, e: Event, p: Parser)
    requires Indexed(c)
    ensures OnEvent(c, e).parser == c.parser && OnEvent(c.(parser := p), e) == OnEvent(c, e).(parser := p)
  {
    hide IsUpgrade, StepExchange;
    var d := c.(seen := c.seen + [e]);
    if !e.Head? && d.current.Some? {
      StepKeepsParser(d, d.current.value, if e.BodyData? then FeedBody(e.data) else FeedEom, p);
    }
  }

  /** One call of `next_event` within `ResumeParsing`. */
  lemma NextIs(c: Conn)
    requires Live(c)
    ensures var t := NextEvent(c.parser); var d := c.(parser := t.next);
            match t.outcome
            case Got(e) =>
              && Live(OnEvent(d, e)) && Parsed(c) == Parsed(OnEvent(d, e)) && OnEvent(d, e).parser == t.next
              && (c.current.Some? && !e.Head? ==> !c.exchanges[c.current.value].cycle.bodyComplete)
              && (|t.next.buffer| < |c.parser.buffer|
                  || (t.next.buffer == c.parser.buffer && Rank(t.next.phase) < Rank(c.parser.phase)))
            case NeedsData => Live(d) && Parsed(c) == d && t.next.error.None?
            case Raised(e) => Live(d) && Parsed(c) == d && t.next.error == Some(e)
  {
    var p := c.parser;
    var t := NextEvent(p);
    TurnIs(p);
    NextEventKeepsSound(c, p);
    hide NextEvent, Drain, WireSound, OnEvent, OnEvents, SoundFor;
    if t.outcome.Got? {
      var e, rest := t.outcome.event, Drain(t.next, false);
      EventKeepsParser(c, e, t.next);
      EventKeepsParser(c, e, rest.next);
      OtherParser(OnEvent(c, e), t.next, t.next);
      HeadEvent(c.(parser := rest.next), e, rest.events);
    } else {
      OtherParser(c, t.next, t.next);
      OneEmpty(c.(parser := t.next));
    }
  }

  lemma HeadEvent(c: Conn, e: Event, rest: seq<Event>)
    requires Indexed(c)
    ensures OnEvents(c, [e] + rest) == OnEvents(OnEvent(c, e), rest)
  {
    hide OnEvent;
    assert ([e] + rest)[1..] == rest;
  }

  lemma OneEmpty(c: Conn)
    requires Indexed(c)
    ensures OnEvents(c, []) == c
  {
  }

  lemma TurnIs(p: Parser)
    requires p.phase == Failed <==> p.error.Some?
    ensures var t, d := NextEvent(p), Drain(p, false);
            match t.outcome
            case Got(e) =>
              && d == Drained([e] + Drain(t.next, false).events, Drain(t.next, false).next)
              && (|t.next.buffer| < |p.buffer| || (t.next.buffer == p.buffer && Rank(t.next.phase) < Rank(p.phase)))
            case NeedsData => d == Drained([], t.next) && t.next.error.None?
            case Raised(e) => d == Drained([], t.next) && t.next.error == Some(e)
  {
    if p.error.None? && p.phase != Complete {
      NextEventDrains(p, false);
      TurnErrors(p);
      hide NextEvent, Drain;
    }
  }

  lemma {:induction false} TurnErrors(p: Parser)
    requires p.error.None? && p.phase != Failed
    ensures var t := NextEvent(p);
            (t.outcome.NeedsData? ==> t.next.error.None?) && (t.outcome.Raised? ==> t.next.error == Some(t.outcome.error))
    decreases |p.buffer|, Rank(p.phase)
  {
    EmitPhases(p);
    assert Advances(p, StepOf(p));
    hide StepOf;
    match StepOf(p)
    case Again(next) => TurnErrors(next);
    case _ =>
  }

  lemma HeadIs(c: Conn, head: RequestHead)
    requires Indexed(c) && !IsUpgrade(head)
    ensures var d, n := OnEvent(c, Head(head)), |c.exchanges|;
            && d == c.(exchanges := d.exchanges, current := Some(n), seen := d.seen)
            && |d.exchanges| == n + 1 && d.exchanges[..n] == c.exchanges && d.exchanges[n].cycle == NewCycle(head)
  {
  }

  function BodyAction(e: Event): Action {
    match e
    case BodyData(data) => FeedBody(data)
    case _ => FeedEom
  }

  lemma EventIs(c: Conn, e: Event, a: Action)
    requires Indexed(c) && c.current.Some? && !c.exchanges[c.current.value].cycle.bodyComplete
    requires !e.Head? && a == BodyAction(e)
    ensures var x := c.exchanges[c.current.value];
            && Enabled(x, a) && Indexed(OnEvent(c, e)) && OnEvent(c, e).current == c.current
            && Stepped(c, OnEvent(c, e), c.current.value, Act(x, a).cycle, c.wire)
  {
  }

}
