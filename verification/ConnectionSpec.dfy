/** One TCP connection: how `HttpProtocol` drives the parser, serves one exchange at a
    time, pauses reading, and answers errors, as functions on an immutable state. */
module ConnectionSpec {
  import opened Bytes
  import opened ParserSpec
  import opened ExchangeSpec

  datatype Transport = Open | ClosingDown | Lost

  datatype Config = Config(limits: Limits, highWater: nat, lowWater: nat)

  /** What has reached the peer, tagged with the exchange that wrote it. */
  datatype Write = ByExchange(index: nat, output: Output) | ErrorAnswer(status: int)

  /** The fields of `HttpProtocol`, with the exchanges begun so far, the runs that have
      ended, and as history what reached the peer, the bytes given to the parser, the
      events it gave back, and the bytes given to the frame layer. */
  datatype Conn = Conn(
    cfg: Config,
    parser: Parser,
    exchanges: seq<Exchange>,
    ended: set<nat>,
    current: Option<nat>,
    upgraded: bool,
    closing: bool,
    shouldExit: bool,
    readPaused: bool,
    transport: Transport,
    wire: seq<Write>,
    received: bytes,
    seen: seq<Event>,
    framed: bytes)

  function NewConn(cfg: Config): Conn {
    Conn(cfg, ParserSpec.Fresh(cfg.limits), [], {}, None, false, false, false, false, Open, [], [], [], [])
  }

  /** The exchange in progress is one of those begun. */
  predicate Indexed(c: Conn) { c.current.Some? ==> c.current.value < |c.exchanges| }

  function ShouldClose(c: Conn): bool { c.closing || c.shouldExit }

  // -- writing ------------------------------------------------------------------

  function Tagged(index: nat, outputs: seq<Output>): (r: seq<Write>)
    ensures |r| == |outputs|
  {
    seq(|outputs|, i requires 0 <= i < |outputs| => ByExchange(index, outputs[i]))
  }

  /** `write`: dropped unless the transport is open. */
  function Put(c: Conn, index: nat, outputs: seq<Output>): Conn {
    if c.transport.Open? then c.(wire := c.wire + Tagged(index, outputs)) else c
  }

  function CloseTransport(c: Conn): Conn { if c.transport.Open? then c.(transport := ClosingDown) else c }

  // -- parsing --------------------------------------------------------------------

  function LastValue(headers: seq<Header>, name: bytes): bytes {
    var values := ValuesOf(headers, name);
    if values == [] then [] else values[|values| - 1]
  }

  predicate IsUpgrade(head: RequestHead) {
    && head.verb == Ascii("GET")
    && Lower(LastValue(head.headers, Ascii("upgrade"))) == Ascii("websocket")
    && Find(Lower(LastValue(head.headers, Ascii("connection"))), Ascii("upgrade")).Some?
  }

  /** Hand a step to one exchange, where it is enabled. */
  function StepExchange(c: Conn, i: nat, a: Action): Conn
    requires i < |c.exchanges|
  {
    if Enabled(c.exchanges[i], a) then c.(exchanges := c.exchanges[i := Act(c.exchanges[i], a)]) else c
  }

  function BeginRequest(c: Conn, head: RequestHead): Conn {
    if IsUpgrade(head) then c.(upgraded := true, closing := true)
    else c.(exchanges := c.exchanges + [NewExchange(head)], current := Some(|c.exchanges|))
  }

  function OnEvent(c: Conn, e: Event): (r: Conn)
    requires Indexed(c)
    ensures Indexed(r) && r.cfg == c.cfg
  {
    var c := c.(seen := c.seen + [e]);
    match e
    case Head(head) => BeginRequest(c, head)
    case BodyData(data) => if c.current.Some? then StepExchange(c, c.current.value, FeedBody(data)) else c
    case EndOfMessage => if c.current.Some? then StepExchange(c, c.current.value, FeedEom) else c
  }

  function OnEvents(c: Conn, events: seq<Event>): (r: Conn)
    requires Indexed(c)
    ensures Indexed(r) && r.cfg == c.cfg
    decreases |events|
  {
    if events == [] then c else OnEvents(OnEvent(c, events[0]), events[1..])
  }

  function BufferedBody(c: Conn): nat
    requires Indexed(c)
  {
    if c.current.Some? then |c.exchanges[c.current.value].cycle.body| else 0
  }

  function UpdateReadPause(c: Conn): Conn
    requires Indexed(c)
  {
    if c.current.Some? && c.transport.Open? && BufferedBody(c) >= c.cfg.highWater then c.(readPaused := true) else c
  }

  function MaybeResumeReading(c: Conn): Conn
    requires Indexed(c)
  {
    if (c.current.Some? && BufferedBody(c) > c.cfg.lowWater) || !c.transport.Open? then c else c.(readPaused := false)
  }

  /** Every event the buffered bytes give, then the error that ends them, if any. */
  function ResumeParsing(c: Conn): (r: Conn)
    requires Indexed(c)
    ensures Indexed(r) && r.cfg == c.cfg
  {
    if c.transport.Lost? then c
    else
      var d := Drain(c.parser, false);
      var e := OnEvents(c.(parser := d.next), d.events);
      if d.next.error.Some? then FailWith(e, d.next.error.value.Status()) else UpdateReadPause(e)
  }

  // -- the request's end --------------------------------------------------------------

  /** A minimal response, then close; a response already started is only cut off. */
  function FailWith(c: Conn, status: int): (r: Conn)
    requires Indexed(c)
    ensures Indexed(r) && r.cfg == c.cfg
  {
    if !c.transport.Open? then c
    else if c.current.Some? && c.exchanges[c.current.value].cycle.responseStarted then CloseTransport(c)
    else CloseTransport(c.(current := None, wire := c.wire + [ErrorAnswer(status)]))
  }

  /** Keep the connection only if the exchange agreed, nothing asks to close, and the
      request was read to its end; then a pipelined request may already be buffered. */
  function OnResponseComplete(c: Conn, i: nat): (r: Conn)
    requires Indexed(c) && i < |c.exchanges|
    ensures Indexed(r) && r.cfg == c.cfg
  {
    if c.current != Some(i) then c
    else
      var c := MaybeResumeReading(c.(current := None));
      if !c.transport.Open? then c
      else if !c.exchanges[i].cycle.keepAlive || ShouldClose(c) || c.parser.phase != Complete then CloseTransport(c)
      else ResumeParsing(c.(parser := StartNext(c.parser)))
  }

  function OnAppError(c: Conn, i: nat): (r: Conn)
    requires Indexed(c) && i < |c.exchanges|
    ensures Indexed(r) && r.cfg == c.cfg
  {
    var c := if c.current == Some(i) then c.(current := None) else c;
    if !c.exchanges[i].cycle.responseStarted then FailWith(c, 500) else CloseTransport(c)
  }

  // -- the steps -----------------------------------------------------------------

  datatype ConnAction =
    | DataReceived(data: bytes) | EofReceived | ConnectionLost
    | IdleTimeout | HeaderTimeout | Shutdown | ExitRequested
    | AppReceive(i: nat) | AppWake(i: nat, waiting: Waiting) | AppSend(i: nat, message: SendMessage) | AppEnd(i: nat, raised: bool)

  /** Timers are cancelled by an upgrade, nothing arrives on a lost connection and no
      bytes behind the end of the stream, and an application that has returned does
      nothing more. */
  predicate CanAct(c: Conn, a: ConnAction) {
    match a
    case AppReceive(i) => i < |c.exchanges| && i !in c.ended
    case AppWake(i, w) => i < |c.exchanges| && i !in c.ended && Enabled(c.exchanges[i], Wake(w))
    case AppSend(i, _) => i < |c.exchanges| && i !in c.ended
    case AppEnd(i, _) => i < |c.exchanges| && i !in c.ended
    case DataReceived(_) => !c.transport.Lost? && !c.parser.eof
    case EofReceived => !c.transport.Lost? && !c.parser.eof
    case IdleTimeout => !c.transport.Lost? && !c.upgraded
    case HeaderTimeout => !c.transport.Lost? && !c.upgraded
    case _ => !c.transport.Lost?
  }

  function Receive(c: Conn, i: nat): Conn
    requires i < |c.exchanges|
  {
    Put(StepExchange(c, i, CallReceive), i, BeginReceive(c.exchanges[i].cycle).outputs)
  }

  predicate DeliversBody(x: Exchange, w: Waiting) {
    w in x.calls && Poll(x.cycle, w).Delivered? && Poll(x.cycle, w).message.RequestBody?
  }

  function WakeUp(c: Conn, i: nat, w: Waiting): (r: Conn)
    requires Indexed(c) && i < |c.exchanges|
    ensures Indexed(r) && r.cfg == c.cfg
  {
    var d := StepExchange(c, i, Wake(w));
    if DeliversBody(c.exchanges[i], w) then MaybeResumeReading(d) else d
  }

  function Respond(c: Conn, i: nat, m: SendMessage): (r: Conn)
    requires Indexed(c) && i < |c.exchanges|
    ensures Indexed(r) && r.cfg == c.cfg
  {
    hide Send, Act, ResumeParsing;
    match Send(c.exchanges[i].cycle, m, ShouldClose(c))
    case SendRaises => c
    case Sent(next, outputs) =>
      var d := Put(StepExchange(c, i, CallSend(m, ShouldClose(c))), i, outputs);
      if next.responseComplete then OnResponseComplete(d, i) else d
  }

  function EndRun(c: Conn, i: nat, raised: bool): (r: Conn)
    requires Indexed(c) && i < |c.exchanges|
    ensures Indexed(r) && r.cfg == c.cfg
  {
    var x := c.exchanges[i].cycle;
    var d := if raised || !x.responseStarted then OnAppError(c, i)
             else if !x.responseComplete then Respond(c, i, ResponseBody([], false))
             else c;
    d.(ended := d.ended + {i})
  }

  function Disconnect(c: Conn): (r: Conn)
    requires Indexed(c)
    ensures Indexed(r) && r.cfg == c.cfg
  {
    if c.current.Some? then StepExchange(c, c.current.value, OnDisconnect) else c
  }

  /** Bytes for an upgraded connection belong to its frames and not to the parser. */
  function OnData(c: Conn, data: bytes): (r: Conn)
    requires Indexed(c)
    ensures Indexed(r) && r.cfg == c.cfg
  {
    if c.upgraded then c.(framed := c.framed + data) else ResumeParsing(c.(parser := Feed(c.parser, data), received := c.received + data))
  }

  function OnEof(c: Conn): (r: Conn)
    requires Indexed(c)
    ensures Indexed(r) && r.cfg == c.cfg
  {
    var c := c.(parser := c.parser.(eof := true));
    if c.current.None? then CloseTransport(c) else Disconnect(ResumeParsing(c.(closing := true)))
  }

  function ActOn(c: Conn, a: ConnAction): (r: Conn)
    requires Indexed(c) && CanAct(c, a)
    ensures Indexed(r) && r.cfg == c.cfg
  {
    hide Send, Act, Poll, ResumeParsing, Drain, Respond;
    match a
    case DataReceived(data) => OnData(c, data)
    case EofReceived => OnEof(c)
    case ConnectionLost => Disconnect(c.(transport := Lost))
    case IdleTimeout => if c.current.None? then CloseTransport(c) else c
    case HeaderTimeout => if c.current.None? then FailWith(c, 408) else c
    case Shutdown =>
      var c := c.(closing := true);
      if c.current.None? then CloseTransport(c) else c
    case ExitRequested => c.(shouldExit := true)
    case AppReceive(i) => Receive(c, i)
    case AppWake(i, w) => WakeUp(c, i, w)
    case AppSend(i, m) => Respond(c, i, m)
    case AppEnd(i, raised) => EndRun(c, i, raised)
  }

  ghost predicate Reaches(start: Conn, actions: seq<ConnAction>, c: Conn)
    requires Indexed(start)
    decreases |actions|
  {
    if actions == [] then c == start
    else CanAct(start, actions[0]) && Reaches(ActOn(start, actions[0]), actions[1..], c)
  }
}
