/** Concrete runs of a connection: bytes in, and what becomes of them. */
module ConnectionRuns {
  import opened Bytes
  import opened ParserSpec
  import opened ParserHeads
  import opened ExchangeSpec
  import opened ExchangeFraming
  import opened ConnectionSpec
  import opened ConnectionSafety
  import opened AbandonedReceive
  import opened UpgradedConnection

  // -- what a head turns into -----------------------------------------------------------

  /** Few short fields and a short line. */
  predicate HasRoomFor(limits: Limits, m: RequestLineParts, headers: seq<Header>) {
    && |PrintRequestLine(m)| < limits.maxRequestLine && |PrintFields(headers)| < limits.maxHeadersSize
    && |headers| <= limits.maxHeaderCount
  }

  /** A request line of HTTP/1.0 or HTTP/1.1. */
  function LineOf(verb: string, minor: byte): RequestLineParts { RequestLineParts(Ascii(verb), Ascii("/"), 49, minor) }

  const LENGTH_ONE: seq<Header> := [Header(Ascii("content-length"), Ascii("1"))]

  const TO_WEBSOCKET: seq<Header> :=
    [Header(Ascii("upgrade"), Ascii("websocket")), Header(Ascii("connection"), Ascii("upgrade"))]

  /** A POST that announces one byte of body. */
  const POST_ONE: bytes := PrintHead(LineOf("POST", 48), LENGTH_ONE)

  /** A GET that asks for an upgrade. */
  const GET_UPGRADE: bytes := PrintHead(LineOf("GET", 48), TO_WEBSOCKET)

  predicate Roomy(limits: Limits) {
    && limits.maxRequestLine >= 16 && limits.maxHeadersSize >= 64 && limits.maxHeaderCount >= 2
    && (limits.maxBodySize.Some? ==> limits.maxBodySize.value >= 1)
  }

  lemma LinesAreLegal()
    ensures IsRequestLine(LineOf("POST", 48)) && IsRequestLine(LineOf("GET", 48))
    ensures |PrintRequestLine(LineOf("POST", 48))| == 15 && |PrintRequestLine(LineOf("GET", 48))| == 14
    ensures Ascii("POST") != Ascii("CONNECT") && Ascii("GET") != Ascii("CONNECT")
  {
    hide IsRequestLine, PrintRequestLine, Ascii;
    LineIsLegal("POST", 48);
    LineIsLegal("GET", 48);
    assert |Ascii("POST")| == 4 && |Ascii("GET")| == 3 && |Ascii("CONNECT")| == 7;
  }

  lemma LineIsLegal(verb: string, minor: byte)
    requires (minor == 48 || minor == 49) && verb != "" && forall c :: c in verb ==> 'A' <= c <= 'Z'
    ensures IsRequestLine(LineOf(verb, minor)) && |PrintRequestLine(LineOf(verb, minor))| == |verb| + 11
  {
    forall i | 0 <= i < |verb| ensures IsTokenByte(Ascii(verb)[i]) {
      assert verb[i] in verb;
    }
    assert |Ascii("/")| == 1 && |Ascii(" HTTP/")| == 6;
  }

  lemma PrintOneField(h: Header)
    ensures PrintFields([h]) == PrintField(h) + CRLF
  {
    assert [h][1..] == [];
    assert PrintFields([]) == [];
  }

  lemma TwoFields(a: Header, b: Header)
    ensures PrintFields([a, b]) == PrintField(a) + CRLF + (PrintField(b) + CRLF)
  {
    assert [a, b][1..] == [b];
    PrintOneField(b);
  }

  /** A text without capitals and blanks. */
  predicate IsPlain(s: bytes) { s != [] && forall i :: 0 <= i < |s| ==> s[i] == 45 || 48 <= s[i] <= 57 || 97 <= s[i] <= 122 }

  lemma PlainField(h: Header)
    requires IsPlain(h.name) && IsPlain(h.value)
    ensures IsField(h) && Lower(h.name) == h.name && Lower(h.value) == h.value
  {
    var marks := Ascii("!#$%&'*+-.^_`|~");
    assert marks[8] == 45;
    assert forall i :: 0 <= i < |h.name| ==> IsTokenByte(h.name[i]);
    assert TrimBlanksLeft(h.value) == h.value;
    assert TrimBlanksRight(h.value) == h.value;
  }

  /** The field `name: value` takes four bytes more than its texts. */
  lemma PlainFieldsAreLegal(headers: seq<Header>)
    requires forall i :: 0 <= i < |headers| ==> IsPlain(headers[i].name) && IsPlain(headers[i].value)
    ensures AreFields(headers) && LowerAll(headers) == headers
  {
    forall i | 0 <= i < |headers| ensures IsField(headers[i]) && Lower(headers[i].name) == headers[i].name {
      PlainField(headers[i]);
    }
    hide IsField, IsPlain, Lower;
  }

  lemma TextIsPlain(s: string)
    requires s != "" && forall c :: c in s ==> c == '-' || '0' <= c <= '9' || 'a' <= c <= 'z'
    ensures IsPlain(Ascii(s))
  {
    forall i | 0 <= i < |s| ensures Ascii(s)[i] == 45 || 48 <= Ascii(s)[i] <= 57 || 97 <= Ascii(s)[i] <= 122 {
      assert s[i] in s;
    }
  }

  lemma TextsArePlain()
    ensures IsPlain(Ascii("content-length")) && IsPlain(Ascii("1")) && IsPlain(Ascii("upgrade"))
    ensures IsPlain(Ascii("websocket")) && IsPlain(Ascii("connection"))
  {
    hide IsPlain, Ascii;
    TextIsPlain("content-length");
    TextIsPlain("1");
    TextIsPlain("upgrade");
    TextIsPlain("websocket");
    TextIsPlain("connection");
  }

  lemma LengthOneIsLegal()
    ensures AreFields(LENGTH_ONE) && |PrintFields(LENGTH_ONE)| == 18 && LowerAll(LENGTH_ONE) == LENGTH_ONE
  {
    hide AreFields, LowerAll, PrintFields, IsPlain;
    TextsArePlain();
    PlainFieldsAreLegal(LENGTH_ONE);
    PrintOneField(LENGTH_ONE[0]);
    assert LENGTH_ONE == [LENGTH_ONE[0]];
  }

  lemma ToWebsocketIsLegal()
    ensures AreFields(TO_WEBSOCKET) && |PrintFields(TO_WEBSOCKET)| == 39 && LowerAll(TO_WEBSOCKET) == TO_WEBSOCKET
  {
    hide AreFields, LowerAll, PrintFields, IsPlain;
    TextsArePlain();
    PlainFieldsAreLegal(TO_WEBSOCKET);
    TwoFields(TO_WEBSOCKET[0], TO_WEBSOCKET[1]);
    assert TO_WEBSOCKET == [TO_WEBSOCKET[0], TO_WEBSOCKET[1]];
  }

  // -- how these heads are framed ---------------------------------------------------------

  lemma ValuesOfTwo(a: Header, b: Header, name: bytes)
    ensures ValuesOf([a, b], name) ==
            (if a.name == name then [a.value] else []) + (if b.name == name then [b.value] else [])
  {
    assert [a, b][..1] == [a];
    OneField(a, name);
  }

  lemma SlashIsTarget()
    ensures SplitTarget(Ascii("/")) == Some(Target(Ascii("/"), [])) && All(Ascii("/"), IsAscii)
  {
    var slash := Ascii("/");
    assert |slash| == 1 && slash[0] == 47;
    hide Ascii;
    assert Without(slash, 63);
    assert IndexOf(slash, 63).None?;
  }

  lemma BuildsHead(verb: bytes, version: Version, headers: seq<Header>, framing: Framing)
    requires ValuesOf(headers, Ascii("expect")) == []
    ensures var b := BuildHead(verb, version, Ascii("/"), headers, framing);
            b.GoodHead? && b.head.verb == verb && b.head.headers == headers && b.head.expectContinue == false
            && b.head.chunked == framing.chunked && b.head.contentLength == framing.contentLength
            && (version == Http11 && ValuesOf(headers, Ascii("connection")) == [] ==> b.head.keepAlive)
  {
    hide ValuesOf, SplitTarget, ListHasToken, All;
    SlashIsTarget();
  }

  lemma OneIsLength()
    ensures IsContentLength(Ascii("1")) && NumeralValue(Ascii("1"), 10) == 1
  {
    assert |Ascii("1")| == 1 && Ascii("1")[0] == 49;
  }

  lemma LengthOneFraming()
    ensures FramingOf(LENGTH_ONE, Http10) == FramedAs(Framing(false, Some(1)))
    ensures ValuesOf(LENGTH_ONE, Ascii("expect")) == []
  {
    var h := Header(Ascii("content-length"), Ascii("1"));
    OneField(h, Ascii("host"));
    OneField(h, Ascii("content-length"));
    OneField(h, Ascii("transfer-encoding"));
    OneField(h, Ascii("expect"));
    OneIsLength();
    assert |Ascii("host")| == 4 && |Ascii("content-length")| == 14 && |Ascii("transfer-encoding")| == 17 && |Ascii("expect")| == 6;
    hide ValuesOf, Ascii, NumeralValue, IsContentLength;
  }

  lemma ToWebsocketFraming()
    ensures FramingOf(TO_WEBSOCKET, Http10) == FramedAs(Framing(false, None))
    ensures ValuesOf(TO_WEBSOCKET, Ascii("expect")) == []
    ensures LastValue(TO_WEBSOCKET, Ascii("upgrade")) == Ascii("websocket")
    ensures LastValue(TO_WEBSOCKET, Ascii("connection")) == Ascii("upgrade")
  {
    var a, b := Header(Ascii("upgrade"), Ascii("websocket")), Header(Ascii("connection"), Ascii("upgrade"));
    ValuesOfTwo(a, b, Ascii("host"));
    ValuesOfTwo(a, b, Ascii("content-length"));
    ValuesOfTwo(a, b, Ascii("transfer-encoding"));
    ValuesOfTwo(a, b, Ascii("expect"));
    ValuesOfTwo(a, b, Ascii("upgrade"));
    ValuesOfTwo(a, b, Ascii("connection"));
    assert |Ascii("host")| == 4 && |Ascii("content-length")| == 14 && |Ascii("transfer-encoding")| == 17 && |Ascii("expect")| == 6;
    assert |Ascii("upgrade")| == 7 && |Ascii("connection")| == 10;
    hide ValuesOf, Ascii;
  }

  lemma WebsocketIsUpgrade(head: RequestHead)
    requires head.verb == Ascii("GET") && head.headers == TO_WEBSOCKET
    ensures IsUpgrade(head)
  {
    TextsArePlain();
    PlainField(Header(Ascii("upgrade"), Ascii("websocket")));
    ToWebsocketFraming();
    var u := Ascii("upgrade");
    hide LastValue, Lower, Ascii, IsPlain;
    FindItself(u);
  }

  lemma PostIsNoUpgrade(head: RequestHead)
    requires head.verb == Ascii("POST")
    ensures !IsUpgrade(head)
  {
    assert |Ascii("POST")| == 4 && |Ascii("GET")| == 3;
  }

  lemma PostHead(q: Parser)
    requires q.error.None? && q.version == Http10 && q.headers == LENGTH_ONE && q.target == Ascii("/")
    requires q.verb == Ascii("POST") && q.bodySize == 0 && Roomy(q.limits)
    ensures var s := FinishHeaders(q);
            s.Emit? && s.event.Head? && !IsUpgrade(s.event.head) && !s.event.head.expectContinue
            && s.next == q.(bodySize := 1, remaining := 1, phase := BodyLength)
  {
    hide FramingOf, BuildHead, IsUpgrade, ValuesOf, Ascii;
    LengthOneFraming();
    BuildsHead(q.verb, Http10, LENGTH_ONE, Framing(false, Some(1)));
    PostIsNoUpgrade(BuildHead(q.verb, Http10, q.target, LENGTH_ONE, Framing(false, Some(1))).head);
  }

  lemma UpgradeHead(q: Parser)
    requires q.error.None? && q.version == Http10 && q.headers == TO_WEBSOCKET && q.target == Ascii("/") && q.verb == Ascii("GET")
    ensures var s := FinishHeaders(q);
            s.Emit? && s.event.Head? && IsUpgrade(s.event.head) && BodyFree(s.event.head)
            && s.next == q.(remaining := 0, phase := BodyLength)
  {
    hide FramingOf, BuildHead, IsUpgrade, ValuesOf, Ascii;
    ToWebsocketFraming();
    BuildsHead(q.verb, Http10, TO_WEBSOCKET, Framing(false, None));
    WebsocketIsUpgrade(BuildHead(q.verb, Http10, q.target, TO_WEBSOCKET, Framing(false, None)).head);
  }

  // -- a request whose body does not come ---------------------------------------------------

  /** One exchange in progress; the parser waits for the one byte of its body. */
  predicate AwaitsByte(c: Conn) {
    && c.current == Some(0) && |c.exchanges| == 1 && c.ended == {} && c.transport.Open? && c.wire == []
    && c.parser.phase == BodyLength && c.parser.remaining == 1 && c.parser.buffer == [] && c.parser.error.None?
    && !c.parser.eof && !c.upgraded
  }

  lemma PostIsDrained(p: Parser)
    requires p.phase == RequestLine && !p.started && p.error.None? && p.headers == [] && p.headersSize == 0
    requires p.bodySize == 0 && !p.eof && p.buffer == POST_ONE && Roomy(p.limits)
    ensures var d := Drain(p, false);
            && |d.events| == 1 && d.events[0].Head? && !IsUpgrade(d.events[0].head) && !d.events[0].head.expectContinue
            && d.next.phase == BodyLength && d.next.remaining == 1 && d.next.buffer == [] && d.next.error.None? && !d.next.eof
  {
    var m, q := LineOf("POST", 48), AtEnd(p, LineOf("POST", 48), LENGTH_ONE, []);
    LinesAreLegal();
    LengthOneIsLegal();
    assert POST_ONE + [] == PrintHead(m, LENGTH_ONE) + [] == POST_ONE;
    assert q.headers == LENGTH_ONE by { assert [] + LowerAll(LENGTH_ONE) == LENGTH_ONE; }
    hide Drain, NextEvent, FinishHeaders, IsUpgrade, IsRequestLine, AreFields, PrintHead, PrintFields, PrintRequestLine, Ascii;
    HeadRoundTrip(p, m, LENGTH_ONE, []);
    PostHead(q);
    NextEventDrains(p, false);
    ByteIsMissing(NextEvent(p).next);
  }

  lemma ByteIsMissing(p: Parser)
    requires p.phase == BodyLength && p.remaining == 1 && p.buffer == [] && p.error.None? && !p.eof
    ensures Drain(p, false) == Drained([], p)
  {
    assert StepOf(p) == Wait(p);
  }

  lemma PostArrives(cfg: Config)
    requires Roomy(cfg.limits)
    ensures var c := ActOn(NewConn(cfg), DataReceived(POST_ONE));
            AwaitsByte(c) && exists head :: c.exchanges == [NewExchange(head)] && !head.expectContinue
  {
    var p := Feed(Fresh(cfg.limits), POST_ONE);
    assert [] + POST_ONE == POST_ONE;
    hide Drain, IsUpgrade, NewExchange, OnEvents, PrintHead;
    PostIsDrained(p);
    var d := Drain(p, false);
    assert d.events == [d.events[0]];
    var head := d.events[0].head;
    var c := NewConn(cfg).(parser := d.next, received := POST_ONE);
    HeadBegins(c, head);
    assert ActOn(NewConn(cfg), DataReceived(POST_ONE)) == UpdateReadPause(OnEvents(c, d.events));
  }

  lemma HeadBegins(c: Conn, head: RequestHead)
    requires !IsUpgrade(head) && c.exchanges == [] && c.current.None?
    ensures var d := OnEvents(c, [Head(head)]);
            d == c.(seen := d.seen, exchanges := [NewExchange(head)], current := Some(0))
  {
    hide IsUpgrade, NewExchange;
    assert [Head(head)][1..] == [];
    assert [] + [NewExchange(head)] == [NewExchange(head)];
    assert OnEvents(OnEvent(c, Head(head)), []) == OnEvent(c, Head(head));
  }

  lemma CallWaits(c: Conn, head: RequestHead)
    requires AwaitsByte(c) && c.exchanges == [NewExchange(head)] && !head.expectContinue
    ensures var d := Receive(c, 0);
            AwaitsByte(d) && WaitsForBody(d, 0) && !d.exchanges[0].cycle.responseStarted && !d.exchanges[0].cycle.responseComplete
  {
    assert c.wire + [] == c.wire;
    var outputs := BeginReceive(c.exchanges[0].cycle).outputs;
    assert outputs == [] && Tagged(0, []) == [];
  }

  lemma {:induction false} ReachesSnoc(start: Conn, actions: seq<ConnAction>, c: Conn, a: ConnAction)
    requires Indexed(start) && Reaches(start, actions, c) && Indexed(c) && CanAct(c, a)
    ensures Reaches(start, actions + [a], ActOn(c, a))
    decreases |actions|
  {
    hide ActOn, CanAct;
    if actions == [] {
      assert [a][1..] == [];
      assert Reaches(ActOn(c, a), [], ActOn(c, a));
    } else {
      ReachesSnoc(ActOn(start, actions[0]), actions[1..], c, a);
      assert (actions + [a])[1..] == actions[1..] + [a];
    }
  }

  lemma ReachesOne(c: Conn, a: ConnAction)
    requires Indexed(c) && CanAct(c, a)
    ensures Reaches(c, [a], ActOn(c, a))
  {
    hide ActOn, CanAct;
    assert [a][1..] == [];
    assert Reaches(ActOn(c, a), [], ActOn(c, a));
  }

  /** The request has arrived, and its application has called `receive`. */
  lemma CallRun(cfg: Config) returns (c: Conn)
    requires Roomy(cfg.limits)
    ensures Reaches(NewConn(cfg), [DataReceived(POST_ONE), AppReceive(0)], c) && Live(c)
    ensures AwaitsByte(c) && WaitsForBody(c, 0)
    ensures !c.exchanges[0].cycle.responseStarted && !c.exchanges[0].cycle.responseComplete
  {
    hide PrintHead, Reaches, NewExchange, Receive, OnData, SoundFor, Unfinished, WaitsForBody;
    var c0 := NewConn(cfg);
    PostArrives(cfg);
    ReachesOne(c0, DataReceived(POST_ONE));
    var c1 := ActOn(c0, DataReceived(POST_ONE));
    var head :| c1.exchanges == [NewExchange(head)] && !head.expectContinue;
    CallWaits(c1, head);
    assert CanAct(c1, AppReceive(0));
    ReachesSnoc(c0, [DataReceived(POST_ONE)], c1, AppReceive(0));
    c := Receive(c1, 0);
    assert [DataReceived(POST_ONE)] + [AppReceive(0)] == [DataReceived(POST_ONE), AppReceive(0)];
    NewIsLive(cfg);
    RunKeepsLive(c0, [DataReceived(POST_ONE), AppReceive(0)], c);
  }

  /** The end of the stream instead of the body: the request is answered with 400, and
      the application's call is never told. */
  lemma CutOffRun(cfg: Config) returns (actions: seq<ConnAction>, c: Conn)
    requires Roomy(cfg.limits)
    ensures actions == [DataReceived(POST_ONE), AppReceive(0), EofReceived]
    ensures Reaches(NewConn(cfg), actions, c) && IsAbandoned(c, 0) && Indexed(c) && !CanBeWoken(c, 0, ForBody)
    ensures c.wire == [ErrorAnswer(400)] && !c.exchanges[0].cycle.responseStarted
  {
    var before := CallRun(cfg);
    var p := ParsesFrom(before, EofReceived);
    MissingRestIsError(p);
    assert CanAct(before, EofReceived);
    BreakingOffAbandonsIff(before, 0, EofReceived);
    actions := [DataReceived(POST_ONE), AppReceive(0)] + [EofReceived];
    ReachesSnoc(NewConn(cfg), [DataReceived(POST_ONE), AppReceive(0)], before, EofReceived);
    c := ActOn(before, EofReceived);
    WokenIff(cfg, actions, c, 0);
    CutOffIsAnswered(before);
  }

  lemma MissingRestIsError(p: Parser)
    requires p.phase == BodyLength && p.remaining == 1 && p.buffer == [] && p.error.None? && p.eof
    ensures Drain(p, false).events == [] && Drain(p, false).next.error == Some(UnexpectedEof)
  {
    assert StepOf(p) == Fail(p, UnexpectedEof);
  }

  lemma CutOffIsAnswered(c: Conn)
    requires Live(c) && AwaitsByte(c) && !c.exchanges[0].cycle.responseStarted
    ensures var d := OnEof(c);
            d.wire == [ErrorAnswer(400)] && d.exchanges == c.exchanges && d.current.None?
  {
    var p := c.parser.(eof := true);
    MissingRestIsError(p);
    hide Drain, Live;
    assert [] + [ErrorAnswer(400)] == [ErrorAnswer(400)];
  }

  /** The whole response instead of the body: the application's call is never told. */
  lemma AnsweredRun(cfg: Config) returns (actions: seq<ConnAction>, c: Conn)
    requires Roomy(cfg.limits)
    ensures actions == [DataReceived(POST_ONE), AppReceive(0), AppSend(0, ResponseStart(200, [])), AppSend(0, ResponseBody([], false))]
    ensures Reaches(NewConn(cfg), actions, c) && IsAbandoned(c, 0) && Indexed(c) && !CanBeWoken(c, 0, ForBody)
    ensures c.exchanges[0].cycle.responseComplete
  {
    hide PrintHead, Reaches, Respond, SoundFor, Unfinished, WaitsForBody, CanBeWoken;
    var first, last := ResponseStart(200, []), ResponseBody([], false);
    var c2 := CallRun(cfg);
    var run := [DataReceived(POST_ONE), AppReceive(0)];
    StartIsSent(c2);
    var c3 := Respond(c2, 0, first);
    assert CanAct(c2, AppSend(0, first)) && CanAct(c3, AppSend(0, last));
    ActionKeepsLive(c2, AppSend(0, first));
    FinalSendAbandonsIff(c3, 0, last);
    ReachesSnoc(NewConn(cfg), run, c2, AppSend(0, first));
    ReachesSnoc(NewConn(cfg), run + [AppSend(0, first)], c3, AppSend(0, last));
    c := Respond(c3, 0, last);
    actions := run + [AppSend(0, first)] + [AppSend(0, last)];
    WokenIff(cfg, actions, c, 0);
    FinalCompletes(c3, last);
  }

  lemma StartIsSent(c: Conn)
    requires AwaitsByte(c) && WaitsForBody(c, 0)
    requires !c.exchanges[0].cycle.responseStarted && !c.exchanges[0].cycle.responseComplete
    ensures var d := Respond(c, 0, ResponseStart(200, []));
            AwaitsByte(d) && WaitsForBody(d, 0) && d.exchanges[0].cycle.responseStarted && !d.exchanges[0].cycle.responseComplete
  {
    assert c.wire + [] == c.wire && Tagged(0, []) == [];
  }

  lemma FinalCompletes(c: Conn, m: SendMessage)
    requires AwaitsByte(c) && c.exchanges[0].cycle.responseStarted && !c.exchanges[0].cycle.responseComplete
    requires m.ResponseBody? && !m.more
    ensures var d := Respond(c, 0, m); |d.exchanges| == 1 && d.exchanges[0].cycle.responseComplete
  {
    hide SendBody, BuildResponse, BodyOutputs;
    var s := Send(c.exchanges[0].cycle, m, ShouldClose(c));
    SendFinishesIff(c.exchanges[0].cycle, m, ShouldClose(c));
  }

  // -- bytes behind an upgrade -------------------------------------------------------------

  lemma UpgradeIsDrained(p: Parser, frames: bytes)
    requires p.phase == RequestLine && !p.started && p.error.None? && p.headers == [] && p.headersSize == 0
    requires p.buffer == GET_UPGRADE + frames && Roomy(p.limits)
    ensures var d := Drain(p, false);
            && |d.events| == 2 && d.events[0].Head? && IsUpgrade(d.events[0].head) && d.events[1].EndOfMessage?
            && d.next.buffer == frames && d.next.error.None?
  {
    var m, q := LineOf("GET", 48), AtEnd(p, LineOf("GET", 48), TO_WEBSOCKET, frames);
    LinesAreLegal();
    ToWebsocketIsLegal();
    assert q.headers == TO_WEBSOCKET by { assert [] + LowerAll(TO_WEBSOCKET) == TO_WEBSOCKET; }
    hide Drain, NextEvent, FinishHeaders, IsUpgrade, IsRequestLine, AreFields, PrintHead, PrintFields, PrintRequestLine, Ascii;
    HeadRoundTrip(p, m, TO_WEBSOCKET, frames);
    UpgradeHead(q);
    NextEventDrains(p, false);
    BodyFreeStops(NextEvent(p).next);
  }

  lemma UpgradeArrives(cfg: Config, frames: bytes)
    requires Roomy(cfg.limits)
    ensures var c := ActOn(NewConn(cfg), DataReceived(GET_UPGRADE + frames));
            c.upgraded && c.framed == [] && c.parser.buffer == frames && c.transport.Open? && !c.parser.eof
  {
    var p := Feed(Fresh(cfg.limits), GET_UPGRADE + frames);
    assert [] + (GET_UPGRADE + frames) == GET_UPGRADE + frames;
    UpgradeIsDrained(p, frames);
    assert !Drain(p, false).next.eof by { DrainKeepsEof(p); }
    hide Drain, IsUpgrade;
    var d := Drain(p, false);
    assert d.events == [d.events[0], d.events[1]];
    var c := NewConn(cfg).(parser := d.next, received := GET_UPGRADE + frames);
    TwoEvents(c, d.events[0].head);
  }

  lemma {:induction false} DrainKeepsEof(p: Parser)
    ensures Drain(p, false).next.eof == p.eof
    decreases |p.buffer|, Rank(p.phase)
  {
    if p.error.None? && p.phase != Complete {
      assert Keeps(p, StepOf(p)) && Advances(p, StepOf(p));
      hide StepOf;
      if StepOf(p).Again? || StepOf(p).Emit? { DrainKeepsEof(StepOf(p).next); }
    }
  }

  lemma TwoEvents(c: Conn, head: RequestHead)
    requires IsUpgrade(head) && c.current.None?
    ensures var d := OnEvents(c, [Head(head), EndOfMessage]);
            d.upgraded && d.current.None? && OnlyFed(c, d)
  {
    hide IsUpgrade;
    assert [Head(head), EndOfMessage][1..] == [EndOfMessage] && [EndOfMessage][1..] == [];
    EventsOnlyFeed(c, [Head(head), EndOfMessage]);
    var d := OnEvent(c, Head(head));
    assert OnEvents(d, [EndOfMessage]) == OnEvents(OnEvent(d, EndOfMessage), []);
  }

  /** The same bytes: behind the head in one read they stay in the request parser and
      the frame layer sees none of them; in a read of their own it sees them all. */
  lemma UpgradeRun(cfg: Config, frames: bytes)
    requires Roomy(cfg.limits)
    ensures var c := ActOn(NewConn(cfg), DataReceived(GET_UPGRADE + frames));
            c.upgraded && c.framed == [] && c.parser.buffer == frames
    ensures var c := ActOn(NewConn(cfg), DataReceived(GET_UPGRADE));
            CanAct(c, DataReceived(frames)) && Indexed(c)
            && ActOn(c, DataReceived(frames)).framed == frames && ActOn(c, DataReceived(frames)).parser.buffer == []
  {
    UpgradeArrives(cfg, frames);
    UpgradeArrives(cfg, []);
    assert GET_UPGRADE + [] == GET_UPGRADE;
    var c := ActOn(NewConn(cfg), DataReceived(GET_UPGRADE));
    assert CanAct(c, DataReceived(frames));
    assert [] + frames == frames;
  }
}
