/** A concrete run: an application that goes on after its response is complete, and raises,
    takes the connection from the request behind its own. */
module LateRaise {
  import opened Bytes
  import opened ParserSpec
  import opened ParserHeads
  import opened ExchangeSpec
  import opened ExchangeFraming
  import opened ConnectionSpec
  import opened ConnectionSafety
  import opened ConnectionRuns
  import opened LateSteps
  import UpgradedConnection

  const HOST_A: seq<Header> := [Header(Ascii("host"), Ascii("a"))]

  /** A GET of HTTP/1.1, which keeps the connection. */
  const GET_A: bytes := PrintHead(LineOf("GET", 49), HOST_A)

  // -- the head --------------------------------------------------------------------------

  lemma GetIsLegal()
    ensures IsRequestLine(LineOf("GET", 49)) && |PrintRequestLine(LineOf("GET", 49))| == 14 && Ascii("GET") != Ascii("CONNECT")
    ensures AreFields(HOST_A) && |PrintFields(HOST_A)| == 8 && LowerAll(HOST_A) == HOST_A
  {
    hide AreFields, LowerAll, PrintFields, IsPlain, IsRequestLine, PrintRequestLine;
    LineIsLegal("GET", 49);
    assert |Ascii("GET")| == 3 && |Ascii("CONNECT")| == 7;
    TextIsPlain("host");
    TextIsPlain("a");
    PlainFieldsAreLegal(HOST_A);
    PrintOneField(HOST_A[0]);
    assert HOST_A == [HOST_A[0]];
  }

  lemma HostFraming()
    ensures FramingOf(HOST_A, Http11) == FramedAs(Framing(false, None))
    ensures ValuesOf(HOST_A, Ascii("expect")) == [] && ValuesOf(HOST_A, Ascii("connection")) == []
    ensures ValuesOf(HOST_A, Ascii("upgrade")) == []
  {
    var h := HOST_A[0];
    assert HOST_A == [h];
    OneField(h, Ascii("host"));
    OneField(h, Ascii("content-length"));
    OneField(h, Ascii("transfer-encoding"));
    OneField(h, Ascii("expect"));
    OneField(h, Ascii("connection"));
    OneField(h, Ascii("upgrade"));
    assert |Ascii("host")| == 4 && |Ascii("content-length")| == 14 && |Ascii("transfer-encoding")| == 17 && |Ascii("expect")| == 6;
    assert |Ascii("connection")| == 10 && |Ascii("upgrade")| == 7;
    hide ValuesOf, Ascii;
  }

  lemma HostIsNoUpgrade(head: RequestHead)
    requires head.headers == HOST_A
    ensures !IsUpgrade(head)
  {
    HostFraming();
    assert |Ascii("websocket")| == 9;
    hide ValuesOf, Ascii;
    assert |Lower([])| == 0;
  }

  lemma GetHead(q: Parser)
    requires q.error.None? && q.version == Http11 && q.headers == HOST_A && q.target == Ascii("/") && q.verb == Ascii("GET")
    ensures var s := FinishHeaders(q);
            s.Emit? && s.event.Head? && !IsUpgrade(s.event.head) && s.event.head.keepAlive && s.event.head.verb == q.verb
            && s.next == q.(remaining := 0, phase := BodyLength)
  {
    hide FramingOf, BuildHead, IsUpgrade, ValuesOf, Ascii;
    HostFraming();
    BuildsHead(q.verb, Http11, HOST_A, Framing(false, None));
    HostIsNoUpgrade(BuildHead(q.verb, Http11, q.target, HOST_A, Framing(false, None)).head);
  }

  /** The parser waits for a request. */
  predicate Awaits(p: Parser) {
    && p.phase == RequestLine && !p.started && p.error.None? && p.headers == [] && p.headersSize == 0
    && p.bodySize == 0 && !p.eof && p.buffer == [] && Roomy(p.limits)
  }

  /** The parser has read a request to its end and has nothing more. */
  predicate HasRead(p: Parser) { p.phase == Complete && p.error.None? && !p.eof && p.buffer == [] && Roomy(p.limits) }

  lemma GetIsDrained(p: Parser)
    requires Awaits(p)
    ensures var d := Drain(Feed(p, GET_A), false);
            && |d.events| == 2 && d.events[0].Head? && d.events[1].EndOfMessage? && HasRead(d.next)
            && !IsUpgrade(d.events[0].head) && d.events[0].head.keepAlive && d.events[0].head.verb == Ascii("GET")
  {
    var m, q := LineOf("GET", 49), AtEnd(Feed(p, GET_A), LineOf("GET", 49), HOST_A, []);
    GetIsLegal();
    assert [] + GET_A == GET_A && PrintHead(m, HOST_A) + [] == GET_A;
    assert q.headers == HOST_A by { assert [] + LowerAll(HOST_A) == HOST_A; }
    hide Drain, NextEvent, FinishHeaders, IsUpgrade, IsRequestLine, AreFields, PrintHead, PrintFields, PrintRequestLine, Ascii;
    HeadRoundTrip(Feed(p, GET_A), m, HOST_A, []);
    GetHead(q);
    NextEventDrains(Feed(p, GET_A), false);
    UpgradedConnection.BodyFreeStops(NextEvent(Feed(p, GET_A)).next);
  }

  // -- the connection ------------------------------------------------------------------------

  /** Open, and no request in progress. */
  predicate Idle(c: Conn) {
    && c.current.None? && c.transport.Open? && c.ended == {} && !c.upgraded && !c.closing && !c.shouldExit && Awaits(c.parser)
  }

  /** The last request has been read whole, and nothing has been said to it. */
  predicate Serving(c: Conn) {
    && c.exchanges != [] && c.current == Some(|c.exchanges| - 1) && c.transport.Open? && c.ended == {}
    && !c.upgraded && !c.closing && !c.shouldExit && HasRead(c.parser)
    && var x := c.exchanges[|c.exchanges| - 1];
       x.cycle.keepAlive && x.cycle.bodyComplete && !x.cycle.responseComplete && !x.cycle.headWritten && x.outputs == []
       && x.cycle.head.verb == Ascii("GET")
  }

  lemma TwoEventsBegin(c: Conn, head: RequestHead)
    requires !IsUpgrade(head) && head.keepAlive && head.verb == Ascii("GET") && c.current.None?
    ensures var d, n := OnEvents(c, [Head(head), EndOfMessage]), |c.exchanges|;
            && d == c.(seen := d.seen, exchanges := d.exchanges, current := Some(n))
            && |d.exchanges| == n + 1 && d.exchanges[..n] == c.exchanges
            && d.exchanges[n] == Act(NewExchange(head), FeedEom)
  {
    hide IsUpgrade, NewExchange;
    assert [Head(head), EndOfMessage][1..] == [EndOfMessage] && [EndOfMessage][1..] == [];
    var d := OnEvent(c, Head(head));
    var e := OnEvent(d, EndOfMessage);
    assert OnEvents(d, [EndOfMessage]) == OnEvents(e, []) == e;
  }

  lemma GetArrives(c: Conn)
    requires Idle(c)
    ensures var d, n := ActOn(c, DataReceived(GET_A)), |c.exchanges|;
            Serving(d) && |d.exchanges| == n + 1 && d.exchanges[..n] == c.exchanges && d.wire == c.wire
            && !d.exchanges[n].cycle.responseStarted
  {
    GetIsDrained(c.parser);
    var d := Drain(Feed(c.parser, GET_A), false);
    var head := d.events[0].head;
    assert d.events == [Head(head), EndOfMessage];
    var c' := c.(parser := d.next, received := c.received + GET_A);
    TwoEventsBegin(c', head);
    hide Drain, IsUpgrade, OnEvents, Ascii, Awaits, HasRead;
    assert ActOn(c, DataReceived(GET_A)) == UpdateReadPause(OnEvents(c', d.events));
  }

  const START: SendMessage := ResponseStart(200, [])
  const LAST: SendMessage := ResponseBody([], false)

  lemma StartIsTaken(c: Conn)
    requires Serving(c) && !c.exchanges[|c.exchanges| - 1].cycle.responseStarted
    ensures var d, i := Respond(c, |c.exchanges| - 1, START), |c.exchanges| - 1;
            && Serving(d) && |d.exchanges| == |c.exchanges| && d.wire == c.wire
            && d.exchanges[i].cycle.responseStarted && d.exchanges[i].cycle.status == 200 && d.exchanges[i].cycle.headers == []
  {
    hide HasRead, Ascii;
    assert Tagged(|c.exchanges| - 1, []) == [] && c.wire + [] == c.wire;
    assert LowerNames([]) == [];
  }

  /** The response keeps the connection. */
  lemma LastCompletes(x: Cycle)
    requires x.responseStarted && !x.responseComplete && !x.headWritten && x.keepAlive && x.bodyComplete
    requires x.status == 200 && x.headers == [] && x.head.verb == Ascii("GET")
    ensures var s := Send(x, LAST, false); s.Sent? && s.next.responseComplete && s.next.keepAlive
  {
    assert |Ascii("GET")| == 3 && |Ascii("HEAD")| == 4;
    hide Ascii, BodyOutputs, KeptFields;
  }

  lemma NothingFollows(p: Parser)
    requires HasRead(p)
    ensures Awaits(StartNext(p)) && Drain(StartNext(p), false) == Drained([], StartNext(p))
  {
    var q := StartNext(p);
    assert StepOf(q) == Wait(q);
  }

  lemma LastIsTaken(c: Conn)
    requires Serving(c)
    requires var x := c.exchanges[|c.exchanges| - 1].cycle; x.responseStarted && x.status == 200 && x.headers == []
    ensures var d, i := Respond(c, |c.exchanges| - 1, LAST), |c.exchanges| - 1;
            && Idle(d) && |d.exchanges| == |c.exchanges|
            && |d.wire| >= |c.wire| && d.wire[..|c.wire|] == c.wire
            && forall k :: |c.wire| <= k < |d.wire| ==> d.wire[k].ByExchange? && d.wire[k].index == i
  {
    var i := |c.exchanges| - 1;
    LastCompletes(c.exchanges[i].cycle);
    NothingFollows(c.parser);
    hide Send, Ascii, Drain, Awaits, HasRead, Act;
    SendIs(c.exchanges[i], LAST, false);
    SendingIsStepping(c.exchanges[i], LAST, false);
    var s := Send(c.exchanges[i].cycle, LAST, false);
    var d := Put(StepExchange(c, i, CallSend(LAST, false)), i, s.outputs);
    NextIsAwaited(d, i);
  }

  lemma NextIsAwaited(c: Conn, i: nat)
    requires Indexed(c) && c.current == Some(i) && c.transport.Open? && !c.closing && !c.shouldExit && !c.upgraded && c.ended == {}
    requires c.exchanges[i].cycle.keepAlive && HasRead(c.parser)
    ensures var d := OnResponseComplete(c, i);
            Idle(d) && d.exchanges == c.exchanges && d.wire == c.wire
  {
    NothingFollows(c.parser);
    hide Drain, Awaits;
    var d := MaybeResumeReading(c.(current := None)).(parser := StartNext(c.parser));
    assert OnEvents(d, []) == d;
    assert ResumeParsing(d) == UpdateReadPause(d) by { hide UpdateReadPause; }
  }

  const ANSWERED: seq<ConnAction> := [DataReceived(GET_A), AppSend(0, START), AppSend(0, LAST)]

  /** A request is answered while its application goes on. */
  lemma AnsweredFirst(cfg: Config) returns (c: Conn)
    requires Roomy(cfg.limits)
    ensures Reaches(NewConn(cfg), ANSWERED, c) && Idle(c) && |c.exchanges| == 1
    ensures forall k :: 0 <= k < |c.wire| ==> c.wire[k].ByExchange? && c.wire[k].index == 0
  {
    var c0 := NewConn(cfg);
    hide PrintHead, ActOn, Reaches, Respond;
    assert Idle(c0);
    hide Idle, Roomy;
    GetArrives(c0);
    ReachesOne(c0, DataReceived(GET_A));
    var c1 := ActOn(c0, DataReceived(GET_A));
    var c2 := Responds(c1, 0, START);
    StartIsTaken(c1);
    ReachesSnoc(c0, [DataReceived(GET_A)], c1, AppSend(0, START));
    c := Responds(c2, 0, LAST);
    LastIsTaken(c2);
    ReachesSnoc(c0, [DataReceived(GET_A)] + [AppSend(0, START)], c2, AppSend(0, LAST));
    assert ANSWERED == [DataReceived(GET_A)] + [AppSend(0, START)] + [AppSend(0, LAST)];
  }

  /** Then the next request is read, and the first application raises: the second request
      gets no byte of an answer, whatever happens next. */
  lemma LateRaiseRun(cfg: Config) returns (actions: seq<ConnAction>, c: Conn)
    requires Roomy(cfg.limits)
    ensures actions == [DataReceived(GET_A), AppSend(0, START), AppSend(0, LAST), DataReceived(GET_A), AppEnd(0, true)]
    ensures Reaches(NewConn(cfg), actions, c) && Indexed(c) && c.current == Some(1) && c.transport == ClosingDown
    ensures forall k :: 0 <= k < |c.wire| ==> c.wire[k].ByExchange? && c.wire[k].index == 0
    ensures forall after, d :: Reaches(c, after, d) ==> d.wire == c.wire
  {
    var c0 := NewConn(cfg);
    var c3 := AnsweredFirst(cfg);
    hide Roomy, PrintHead, ActOn, Reaches;
    GetArrives(c3);
    ReachesSnoc(c0, ANSWERED, c3, DataReceived(GET_A));
    var run := ANSWERED + [DataReceived(GET_A)];
    var c4 := ActOn(c3, DataReceived(GET_A));
    RaiseIsLate(cfg, run, c4);
    ReachesSnoc(c0, run, c4, AppEnd(0, true));
    actions := run + [AppEnd(0, true)];
    c := ActOn(c4, AppEnd(0, true));
  }

  /** A message of an application is a step of the connection. */
  lemma Responds(c: Conn, i: nat, m: SendMessage) returns (d: Conn)
    requires Indexed(c) && i < |c.exchanges| && i !in c.ended
    ensures CanAct(c, AppSend(i, m)) && d == ActOn(c, AppSend(i, m)) == Respond(c, i, m)
  {
    hide Respond;
    d := ActOn(c, AppSend(i, m));
  }

  lemma RaiseIsLate(cfg: Config, run: seq<ConnAction>, c: Conn)
    requires Reaches(NewConn(cfg), run, c) && Serving(c) && |c.exchanges| == 2
    ensures Indexed(c) && CanAct(c, AppEnd(0, true))
    ensures var d := ActOn(c, AppEnd(0, true));
            && d.current == Some(1) && d.wire == c.wire && d.transport == ClosingDown
            && forall after, e :: Reaches(d, after, e) ==> e.wire == d.wire
  {
    RunSettles(cfg, run, c);
    hide Reaches, Live, Settled, HasRead;
    OwnStepIs(c, AppEnd(0, true), 0);
    hide ActOn;
    var d := ActOn(c, AppEnd(0, true));
    forall after, e | Reaches(d, after, e) ensures e.wire == d.wire {
      RunIsSilent(d, after, e);
    }
  }
}
