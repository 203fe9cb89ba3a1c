/** One upgraded connection as functions on an immutable state: frames are joined
    into messages, pings answered, and the closing handshake kept. */
module WsSpec {
  import opened Bytes
  import opened WsFrames

  // -- UTF-8 (Table 3-7 of the Unicode standard) -----------------------------------

  predicate IsTail(b: byte) { 0x80 <= b <= 0xBF }

  /** The length of the well-formed sequence that starts `s`, or 0. */
  function Utf8Length(s: bytes): (n: nat)
    ensures n <= |s| && n <= 4
  {
    if s == [] then 0
    else if s[0] <= 0x7F then 1
    else if |s| < 2 || !IsTail(s[1]) then 0
    else if 0xC2 <= s[0] <= 0xDF then 2
    else if |s| < 3 || !IsTail(s[2]) then 0
    else if s[0] == 0xE0 then if s[1] >= 0xA0 then 3 else 0
    else if s[0] == 0xED then if s[1] <= 0x9F then 3 else 0
    else if 0xE1 <= s[0] <= 0xEF then 3
    else if |s| < 4 || !IsTail(s[3]) then 0
    else if s[0] == 0xF0 then if s[1] >= 0x90 then 4 else 0
    else if 0xF1 <= s[0] <= 0xF3 then 4
    else if s[0] == 0xF4 then if s[1] <= 0x8F then 4 else 0
    else 0
  }

  predicate ValidUtf8(s: bytes) {
    s == [] || (Utf8Length(s) > 0 && ValidUtf8(s[Utf8Length(s)..]))
  }

  // -- the closing handshake's payload ------------------------------------------------

  const CLOSE_NORMAL: nat := 1000
  const CLOSE_NO_STATUS: nat := 1005
  const CLOSE_ABNORMAL: nat := 1006
  const CLOSE_INTERNAL_ERROR: nat := 1011

  function Truncated(reason: bytes): bytes { if |reason| <= 123 then reason else reason[..123] }

  /** `None` is the OverflowError of a code that does not fit two bytes. */
  function ClosePayload(code: int, reason: bytes): Option<bytes> {
    if code == CLOSE_NO_STATUS || code == CLOSE_ABNORMAL then Some([])
    else if 0 <= code < 0x1_0000 then Some(ToBytes(code, 2) + Truncated(reason))
    else None
  }

  predicate ValidCloseCode(code: int) {
    3000 <= code <= 4999
    || (1000 <= code <= 1014 && code != CLOSE_NO_STATUS && code != CLOSE_ABNORMAL)
  }

  datatype ParsedClose = GoodClose(code: nat, reason: bytes) | BadClose(error: WsError)

  function ParseClose(payload: bytes): ParsedClose {
    if payload == [] then GoodClose(CLOSE_NO_STATUS, [])
    else if |payload| == 1 then BadClose(CloseOneByte)
    else if !ValidCloseCode(FromBytes(payload[..2])) then BadClose(CloseCodeInvalid(FromBytes(payload[..2])))
    else if !ValidUtf8(payload[2..]) then BadClose(CloseReasonNotUtf8)
    else GoodClose(FromBytes(payload[..2]), payload[2..])
  }

  // -- data -------------------------------------------------------------------

  /** What `receive` hands to the application. */
  datatype Message = Connect | Text(text: bytes) | Binary(data: bytes) | Disconnect(code: int)

  /** The HTTP answers to the upgrade: 101, 426 or 400 from `handshake_response`,
      and the 403 of a refusal. */
  datatype Answer = SwitchingProtocols | UpgradeRequired | BadRequest | Forbidden

  datatype Write = HttpAnswer(answer: Answer) | FrameWrite(opcode: Opcode, payload: bytes)

  /** The connection as the cycle sees it. `log` holds every write the cycle asked
      for; those asked for after `open` fell are dropped by the connection. */
  datatype Wire = Wire(open: bool, readPaused: bool, log: seq<Attempt>)

  datatype Attempt = Attempt(write: Write, sent: bool)

  datatype Ws = Ws(
    maxMessageSize: nat,
    answer: Answer,
    buffer: bytes,
    fragments: bytes,
    fragmentOpcode: Opcode,
    incoming: seq<Message>,
    received: seq<Message>,
    accepted: bool,
    closed: bool,
    handshakeSent: bool,
    connectSent: bool,
    disconnected: bool,
    finished: bool,
    wire: Wire)

  function Fresh(maxMessageSize: nat, answer: Answer): Ws {
    Ws(maxMessageSize, answer, [], [], 0, [], [], false, false, false, false, false, false, Wire(true, false, []))
  }

  // -- the connection -----------------------------------------------------------

  function Put(c: Wire, w: Write): Wire { c.(log := c.log + [Attempt(w, c.open)]) }

  function Close(c: Wire): Wire { c.(open := false) }

  function PauseReading(c: Wire): Wire { if c.open then c.(readPaused := true) else c }

  function ResumeReading(c: Wire): Wire { if c.open then c.(readPaused := false) else c }

  const PAUSE_READING_AT: nat := 32
  const RESUME_READING_AT: nat := 8

  // -- fed by the connection -------------------------------------------------------

  datatype Handled = Fine(next: Ws) | Violated(next: Ws, error: WsError)

  function MessageFor(opcode: nat, payload: bytes): Option<Message> {
    if opcode == OP_BINARY then Some(Binary(payload))
    else if ValidUtf8(payload) then Some(Text(payload))
    else None
  }

  /** What no incoming frame touches. */
  predicate SameRest(w: Ws, v: Ws) {
    && v.buffer == w.buffer && v.maxMessageSize == w.maxMessageSize && v.answer == w.answer
    && v.received == w.received && v.accepted == w.accepted && v.handshakeSent == w.handshakeSent
    && v.connectSent == w.connectSent && v.finished == w.finished
  }

  /** The payload of the open message is now `payload`; with `fin` it is the whole. */
  function TakeData(w: Ws, opcode: Opcode, payload: bytes, fin: bool): (r: Handled)
    ensures SameRest(w, r.next)
  {
    if |payload| > w.maxMessageSize then Violated(w.(fragmentOpcode := opcode, fragments := payload), MessageTooLarge)
    else if !fin then Fine(w.(fragmentOpcode := opcode, fragments := payload))
    else
      match MessageFor(opcode, payload)
      case None => Violated(w.(fragmentOpcode := 0, fragments := []), TextNotUtf8)
      case Some(m) => Fine(w.(fragmentOpcode := 0, fragments := [], incoming := w.incoming + [m]))
  }

  function HandleData(w: Ws, f: Frame): (r: Handled)
    ensures SameRest(w, r.next)
  {
    if f.opcode == OP_CONTINUATION && w.fragmentOpcode == 0 then Violated(w, NothingToContinue)
    else if f.opcode != OP_CONTINUATION && w.fragmentOpcode != 0 then Violated(w, MessageInterrupted)
    else TakeData(w, if f.opcode == OP_CONTINUATION then w.fragmentOpcode else f.opcode, w.fragments + f.payload, f.fin)
  }

  function EchoClose(w: Ws, code: int, reason: bytes): (r: Ws)
    ensures SameRest(w, r)
  {
    var echoed := if code == CLOSE_NO_STATUS then CLOSE_NORMAL else code;
    var w :=
      if w.closed then w
      else
        var payload := ClosePayload(echoed, reason);
        w.(closed := true, wire := Put(w.wire, FrameWrite(OP_CLOSE, if payload.Some? then payload.value else [])));
    w.(incoming := w.incoming + [Disconnect(code)], disconnected := true, wire := Close(w.wire))
  }

  function HandleControl(w: Ws, f: Frame): (r: Handled)
    ensures SameRest(w, r.next)
  {
    if f.opcode == OP_PING then Fine(w.(wire := Put(w.wire, FrameWrite(OP_PONG, f.payload))))
    else if f.opcode == OP_PONG then Fine(w)
    else
      match ParseClose(f.payload)
      case BadClose(e) => Violated(w, e)
      case GoodClose(code, reason) => Fine(EchoClose(w, code, reason))
  }

  function HandleFrame(w: Ws, f: Frame): (r: Handled)
    ensures SameRest(w, r.next)
  {
    if f.IsControl() then HandleControl(w, f) else HandleData(w, f)
  }

  function OnDisconnect(w: Ws, code: int): Ws {
    if w.disconnected then w
    else w.(disconnected := true, closed := true, incoming := w.incoming + [Disconnect(code)])
  }

  /** Close because the peer broke the protocol, or the application did. The codes
      used here all fit, so the payload is always there. */
  function Fail(w: Ws, code: nat, reason: bytes): Ws {
    var w :=
      if w.closed then w
      else
        var payload := ClosePayload(code, reason);
        w.(closed := true, wire := Put(w.wire, FrameWrite(OP_CLOSE, if payload.Some? then payload.value else [])));
    var w := OnDisconnect(w, code);
    w.(wire := Close(w.wire))
  }

  function PauseIfBehind(w: Ws): Ws {
    if |w.incoming| >= PAUSE_READING_AT then w.(wire := PauseReading(w.wire)) else w
  }

  function FeedLoop(w: Ws): Ws
    decreases |w.buffer|
  {
    FrameShortens(w.buffer, w.maxMessageSize);
    match NextFrame(w.buffer, w.maxMessageSize)
    case NoFrame => w
    case BadFrame(e) => Fail(w, e.Code(), e.Reason())
    case GotFrame(f, rest) =>
      match HandleFrame(w.(buffer := rest), f)
      case Violated(next, e) => Fail(next, e.Code(), e.Reason())
      case Fine(next) => if next.closed then next else FeedLoop(PauseIfBehind(next))
  }

  function FeedData(w: Ws, data: bytes): Ws { FeedLoop(w.(buffer := w.buffer + data)) }

  /** The transport is gone: nothing more is sent, and the application is told. */
  function ConnectionLost(w: Ws): Ws { OnDisconnect(w.(wire := Close(w.wire)), CLOSE_ABNORMAL) }

  // -- the application's side ------------------------------------------------------

  /** Where `receive` would wait for the queue. */
  predicate ReceiveWaits(w: Ws) { w.connectSent && w.incoming == [] }

  function Receive(w: Ws): Ws
    requires !ReceiveWaits(w)
  {
    if !w.connectSent then w.(connectSent := true)
    else
      var w := w.(incoming := w.incoming[1..], received := w.received + [w.incoming[0]]);
      if |w.incoming| <= RESUME_READING_AT then w.(wire := ResumeReading(w.wire)) else w
  }

  /** The calls below that raise a RuntimeError leave the state as it is. */
  function Accept(w: Ws): Ws {
    if w.handshakeSent then w
    else w.(wire := Put(w.wire, HttpAnswer(w.answer)), handshakeSent := true, accepted := true)
  }

  function Send(w: Ws, opcode: Opcode, payload: bytes): Ws {
    if !w.accepted || w.closed then w else w.(wire := Put(w.wire, FrameWrite(opcode, payload)))
  }

  /** A code that does not fit raises after `closed` is set, so nothing is written. */
  function AppClose(w: Ws, code: int, reason: bytes): Ws {
    if !w.handshakeSent then
      w.(wire := Close(Put(w.wire, HttpAnswer(Forbidden))), handshakeSent := true, closed := true)
    else if w.closed then w
    else
      match ClosePayload(code, reason)
      case None => w.(closed := true)
      case Some(payload) => w.(closed := true, wire := Close(Put(w.wire, FrameWrite(OP_CLOSE, payload))))
  }

  /** `run` after the application returned, or raised. */
  function Finish(w: Ws, raised: bool): Ws {
    var w := if raised && !w.closed then Fail(w, CLOSE_INTERNAL_ERROR, Ascii("internal error")) else w;
    var w := if w.handshakeSent then w else w.(wire := Put(w.wire, HttpAnswer(Forbidden)));
    w.(wire := Close(w.wire), finished := true)
  }

  // -- runs ----------------------------------------------------------------------

  datatype Action =
    | Feed(data: bytes) | Shut | Lose
    | AskReceive | AskAccept | SendText(text: bytes) | SendBinary(data: bytes) | AskClose(code: int, reason: bytes)
    | End(raised: bool)

  /** `Shut` is the connection closing its transport of its own: the peer half-closed it,
      the server shuts down, or the application of an earlier request raised. The cycle
      is told only when the connection is lost. The application acts only until its
      `run` ends; a `receive` that would wait is not a step. */
  predicate Enabled(w: Ws, a: Action) {
    match a
    case Feed(_) => true
    case Shut => true
    case Lose => true
    case AskReceive => !w.finished && !ReceiveWaits(w)
    case _ => !w.finished
  }

  function Act(w: Ws, a: Action): Ws
    requires Enabled(w, a)
  {
    match a
    case Feed(data) => FeedData(w, data)
    case Shut => w.(wire := Close(w.wire))
    case Lose => ConnectionLost(w)
    case AskReceive => Receive(w)
    case AskAccept => Accept(w)
    case SendText(text) => Send(w, OP_TEXT, text)
    case SendBinary(data) => Send(w, OP_BINARY, data)
    case AskClose(code, reason) => AppClose(w, code, reason)
    case End(raised) => Finish(w, raised)
  }

  /** Every state some interleaving of the two sides reaches, with the bytes fed. */
  ghost predicate Reachable(start: Ws, actions: seq<Action>, w: Ws)
    decreases |actions|
  {
    if actions == [] then w == start
    else Enabled(start, actions[0]) && Reachable(Act(start, actions[0]), actions[1..], w)
  }

  function Fed(actions: seq<Action>): bytes {
    if actions == [] then []
    else (if actions[0].Feed? then actions[0].data else []) + Fed(actions[1..])
  }
}
