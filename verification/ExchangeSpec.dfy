/** One request/response exchange: what `receive` and `send` of `RequestCycle` do to
    its fields, what they write, and how the response head chooses the framing. */
module ExchangeSpec {
  import opened Bytes
  import opened ParserSpec
  import opened ParserChunks

  // -- data -----------------------------------------------------------------

  datatype Cycle = Cycle(
    head: RequestHead,
    keepAlive: bool,
    responseStarted: bool,
    responseComplete: bool,
    bodyComplete: bool,
    disconnected: bool,
    body: bytes,
    continueSent: bool,
    bodyFinished: bool,
    status: int,
    headers: seq<Header>,
    headWritten: bool,
    chunked: bool,
    omitBody: bool)

  function NewCycle(head: RequestHead): Cycle {
    Cycle(head, head.keepAlive, false, false, false, false, [], !head.expectContinue, false, 200, [], false, false, false)
  }

  /** What is written to the connection: the interim response, the response head as
      its status and fields, and body bytes. */
  datatype Output = Interim | ResponseHead(status: int, fields: seq<Header>) | Data(data: bytes)

  const INTERIM: bytes := Ascii("HTTP/1.1 100 Continue") + CRLF + CRLF

  datatype SendMessage = ResponseStart(status: int, headers: seq<Header>) | ResponseBody(body: bytes, more: bool)

  datatype ReceivedMessage = RequestBody(body: bytes, more: bool) | Disconnected

  // -- receive ----------------------------------------------------------------

  /** Where a `receive` call waits: for body bytes, or for the end once the whole body
      was delivered. A call on a complete response returns at once. */
  datatype Waiting = Returns | ForBody | ForEnd

  datatype Begun = Begun(next: Cycle, outputs: seq<Output>, waiting: Waiting)

  function BeginReceive(c: Cycle): Begun {
    if c.responseComplete then Begun(c, [], Returns)
    else
      Begun(c.(continueSent := true), if c.continueSent then [] else [Interim],
            if c.bodyFinished then ForEnd else ForBody)
  }

  datatype Polled = StillWaiting | Delivered(next: Cycle, message: ReceivedMessage)

  function Poll(c: Cycle, waiting: Waiting): Polled {
    match waiting
    case Returns => Delivered(c, Disconnected)
    case ForEnd => if c.disconnected || c.responseComplete then Delivered(c, Disconnected) else StillWaiting
    case ForBody =>
      if c.body == [] && !c.bodyComplete && !c.disconnected then StillWaiting
      else if c.body == [] && !c.bodyComplete then Delivered(c, Disconnected)
      else Delivered(c.(body := [], bodyFinished := c.bodyComplete), RequestBody(c.body, !c.bodyComplete))
  }

  // -- the response head --------------------------------------------------------

  const CONTENT_LENGTH: bytes := Ascii("content-length")
  const TRANSFER_ENCODING: bytes := Ascii("transfer-encoding")
  const CONNECTION: bytes := Ascii("connection")
  const CHUNKED: bytes := Ascii("chunked")
  const CLOSE: bytes := Ascii("close")
  const KEEP_ALIVE: bytes := Ascii("keep-alive")

  predicate AllowsContentLength(status: int) { status >= 200 && status != 204 && status != 304 }

  predicate OmitsBody(verb: bytes, status: int) {
    verb == Ascii("HEAD") || status < 200 || status == 204 || status == 304
  }

  /** The application's fields that are passed on: framing and connection are the
      server's business. */
  function KeptFields(headers: seq<Header>, allowLength: bool): seq<Header> {
    if headers == [] then []
    else
      var front, h := KeptFields(headers[..|headers| - 1], allowLength), headers[|headers| - 1];
      if h.name == TRANSFER_ENCODING || h.name == CONNECTION || (h.name == CONTENT_LENGTH && !allowLength)
      then front else front + [h]
  }

  predicate HasField(headers: seq<Header>, name: bytes) {
    exists i :: 0 <= i < |headers| && headers[i].name == name
  }

  /** Any `connection` field whose value contains "close". */
  predicate AsksToClose(headers: seq<Header>) {
    exists i :: 0 <= i < |headers| && headers[i].name == CONNECTION && Find(Lower(headers[i].value), CLOSE).Some?
  }

  datatype Length = NoLength | KnownLength(n: nat) | Chunks | ByClosing

  /** The delimiting of the body that the server adds. */
  function ChooseLength(c: Cycle, bodyLength: nat, more: bool): Length {
    if AllowsContentLength(c.status) && HasField(c.headers, CONTENT_LENGTH) then NoLength
    else if OmitsBody(c.head.verb, c.status) then
      if AllowsContentLength(c.status) && !more then KnownLength(bodyLength) else NoLength
    else if !more then KnownLength(bodyLength)
    else if c.head.version == Http11 then Chunks
    else ByClosing
  }

  function LengthFields(length: Length): seq<Header> {
    match length
    case KnownLength(n) => [Header(CONTENT_LENGTH, Numeral(n, 10))]
    case Chunks => [Header(TRANSFER_ENCODING, CHUNKED)]
    case _ => []
  }

  /** Whether the connection survives, decided when the head is built. */
  predicate StaysAlive(c: Cycle, length: Length, shouldClose: bool) {
    c.keepAlive && !AsksToClose(c.headers) && !length.ByClosing? && c.bodyComplete && !shouldClose
  }

  function ConnectionFields(alive: bool, version: Version): seq<Header> {
    if !alive then [Header(CONNECTION, CLOSE)]
    else if version == Http10 then [Header(CONNECTION, KEEP_ALIVE)]
    else []
  }

  /** What sending does not touch. */
  predicate SameRequest(c: Cycle, d: Cycle) {
    && d.head == c.head && d.bodyComplete == c.bodyComplete && d.disconnected == c.disconnected
    && d.body == c.body && d.continueSent == c.continueSent && d.bodyFinished == c.bodyFinished
  }

  datatype BuiltResponse = BuiltResponse(next: Cycle, output: Output)

  function BuildResponse(c: Cycle, bodyLength: nat, more: bool, shouldClose: bool): (r: BuiltResponse)
    ensures SameRequest(c, r.next) && r.output.ResponseHead? && r.next.responseComplete == c.responseComplete
  {
    var length := ChooseLength(c, bodyLength, more);
    var alive := StaysAlive(c, length, shouldClose);
    var fields :=
      KeptFields(c.headers, AllowsContentLength(c.status)) + LengthFields(length)
      + ConnectionFields(alive, c.head.version);
    BuiltResponse(
      c.(omitBody := OmitsBody(c.head.verb, c.status), chunked := c.chunked || length.Chunks?, keepAlive := alive),
      ResponseHead(c.status, fields))
  }

  // -- send -------------------------------------------------------------------

  datatype Sent = SendRaises | Sent(next: Cycle, outputs: seq<Output>)

  function LowerNames(headers: seq<Header>): (r: seq<Header>)
    ensures |r| == |headers|
  {
    seq(|headers|, i requires 0 <= i < |headers| => Header(Lower(headers[i].name), headers[i].value))
  }

  function Send(c: Cycle, m: SendMessage, shouldClose: bool): (s: Sent)
    ensures s.Sent? ==> SameRequest(c, s.next) && forall i :: 0 <= i < |s.outputs| ==> !s.outputs[i].Interim?
  {
    if c.responseComplete then SendRaises
    else if !c.responseStarted then
      if !m.ResponseStart? then SendRaises
      else Sent(c.(responseStarted := true, status := m.status, headers := LowerNames(m.headers)), [])
    else if !m.ResponseBody? then SendRaises
    else SendBody(c, m.body, m.more, shouldClose)
  }

  datatype Mode = Omitted | InChunks | Plain

  function ModeOf(c: Cycle): Mode {
    if c.omitBody then Omitted else if c.chunked then InChunks else Plain
  }

  /** What one body message writes after the head. */
  function BodyOutputs(mode: Mode, body: bytes, more: bool): (r: seq<Output>)
    ensures forall i :: 0 <= i < |r| ==> r[i].Data?
  {
    (if body == [] || mode.Omitted? then []
     else if mode.InChunks? then [Data(EncodeChunk(body))]
     else [Data(body)])
    + (if !more && mode.InChunks? then [Data(LAST_CHUNK)] else [])
  }

  function SendBody(c: Cycle, body: bytes, more: bool, shouldClose: bool): (s: Sent)
    ensures s.Sent? && SameRequest(c, s.next) && forall i :: 0 <= i < |s.outputs| ==> !s.outputs[i].Interim?
  {
    var built := BuildResponse(c, |body|, more, shouldClose);
    var d := if c.headWritten then c else built.next.(headWritten := true);
    var head := if c.headWritten then [] else [built.output];
    Sent(d.(responseComplete := !more), head + BodyOutputs(ModeOf(d), body, more))
  }

  // -- an exchange with its history ------------------------------------------------

  /** The cycle together with what a run has done with it: the calls of `receive` that
      have not returned, the body bytes fed and handed over, how often the end of the
      body was delivered, all outputs, and the bodies of the accepted messages. `late`
      records how many of them were out when an interim response was written after the
      head. */
  datatype Exchange = Exchange(
    cycle: Cycle,
    calls: multiset<Waiting>,
    fed: bytes,
    handed: bytes,
    finals: nat,
    outputs: seq<Output>,
    bodies: seq<bytes>,
    late: Option<nat>)

  function NewExchange(head: RequestHead): Exchange {
    Exchange(NewCycle(head), multiset{}, [], [], 0, [], [], None)
  }

  datatype Action =
    | FeedBody(data: bytes) | FeedEom | OnDisconnect
    | CallReceive | Wake(waiting: Waiting)
    | CallSend(message: SendMessage, shouldClose: bool)

  /** The parser hands out no body after its end; a call of `receive` returns once it
      need not wait any more. Any number of calls may overlap. */
  predicate Enabled(x: Exchange, a: Action) {
    match a
    case FeedBody(_) => !x.cycle.bodyComplete
    case Wake(w) => w in x.calls && Poll(x.cycle, w).Delivered?
    case _ => true
  }

  function Act(x: Exchange, a: Action): Exchange
    requires Enabled(x, a)
  {
    match a
    case FeedBody(data) => x.(cycle := x.cycle.(body := x.cycle.body + data), fed := x.fed + data)
    case FeedEom => x.(cycle := x.cycle.(bodyComplete := true))
    case OnDisconnect => x.(cycle := x.cycle.(disconnected := true))
    case CallReceive =>
      var b := BeginReceive(x.cycle);
      x.(cycle := b.next, calls := x.calls + multiset{b.waiting}, outputs := x.outputs + b.outputs,
         late := if b.outputs != [] && x.cycle.headWritten then Some(|x.bodies|) else x.late)
    case Wake(w) =>
      var p := Poll(x.cycle, w);
      var body := if p.message.RequestBody? then p.message.body else [];
      var final := p.message.RequestBody? && !p.message.more;
      x.(cycle := p.next, calls := x.calls - multiset{w}, handed := x.handed + body, finals := x.finals + if final then 1 else 0)
    case CallSend(m, shouldClose) =>
      match Send(x.cycle, m, shouldClose)
      case SendRaises => x
      case Sent(next, outputs) =>
        x.(cycle := next, outputs := x.outputs + outputs,
           bodies := if m.ResponseBody? then x.bodies + [m.body] else x.bodies)
  }

  ghost predicate Reachable(start: Exchange, actions: seq<Action>, x: Exchange)
    decreases |actions|
  {
    if actions == [] then x == start
    else Enabled(start, actions[0]) && Reachable(Act(start, actions[0]), actions[1..], x)
  }
}
