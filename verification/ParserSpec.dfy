/** The HTTP/1.1 request parser as functions on one immutable state: what every
    `_step_*` of `HttpParser` does to the fields, which event it answers, and
    which error it raises. */
module ParserSpec {
  import opened Bytes

  // -- data ------------------------------------------------------------------

  datatype Limits = Limits(
    maxRequestLine: int,
    maxHeadersSize: int,
    maxHeaderCount: int,
    maxChunkLine: int,
    maxBodySize: Option<int>)

  datatype Version = Http10 | Http11

  datatype Header = Header(name: bytes, value: bytes)

  datatype RequestHead = RequestHead(
    verb: bytes,
    version: Version,
    rawPath: bytes,
    query: bytes,
    headers: seq<Header>,
    keepAlive: bool,
    expectContinue: bool,
    chunked: bool,
    contentLength: Option<nat>)

  datatype Event = Head(head: RequestHead) | BodyData(data: bytes) | EndOfMessage

  datatype Phase =
    | RequestLine | Headers
    | BodyLength
    | ChunkSize | ChunkBody | ChunkCrlf | Trailers
    | Complete | Failed

  /** Every way to reject a request; `Status` is what the server answers. */
  datatype ParserError =
    | RequestLineTooLong | MalformedRequestLine | UnsupportedVersion | ConnectUnsupported
    | HeadersTooLarge | ObsoleteFolding | MalformedHeader | TooManyHeaders
    | DuplicateHost | MissingHost
    | BothFramings | DuplicateTransferEncoding | UnsupportedCoding | TransferEncodingInHttp10
    | DuplicateContentLength | MalformedContentLength | BodyTooLarge | UnsupportedExpectation
    | UnsupportedTarget | TargetNotAscii
    | ChunkLineTooLong | MalformedChunkSize | ChunkNotTerminated | MalformedTrailer
    | BareLf | UnexpectedEof
  {
    function Status(): int {
      match this
      case RequestLineTooLong => 414
      case UnsupportedVersion => 505
      case ConnectUnsupported => 501
      case UnsupportedCoding => 501
      case HeadersTooLarge => 431
      case TooManyHeaders => 431
      case BodyTooLarge => 413
      case UnsupportedExpectation => 417
      case _ => 400
    }
  }

  datatype Parser = Parser(
    limits: Limits,
    buffer: bytes,
    eof: bool,
    error: Option<ParserError>,
    phase: Phase,
    headers: seq<Header>,
    headersSize: nat,
    verb: bytes,
    target: bytes,
    version: Version,
    remaining: nat,
    chunkRemaining: nat,
    bodySize: nat,
    started: bool)

  function Reset(p: Parser): Parser {
    p.(headers := [], headersSize := 0, verb := [], target := [], version := Http11,
       remaining := 0, chunkRemaining := 0, bodySize := 0, started := false)
  }

  function Fresh(limits: Limits): Parser {
    Parser(limits, [], false, None, RequestLine, [], 0, [], [], Http11, 0, 0, 0, false)
  }

  function Feed(p: Parser, data: bytes): Parser { p.(buffer := p.buffer + data) }

  function StartNext(p: Parser): Parser
    requires p.phase == Complete
  {
    Reset(p.(phase := RequestLine))
  }

  // -- the grammar of the lines -------------------------------------------------

  predicate IsDigit(b: byte) { 48 <= b <= 57 }

  predicate IsTokenByte(b: byte) {
    IsDigit(b) || 65 <= b <= 90 || 97 <= b <= 122 || b in Ascii("!#$%&'*+-.^_`|~")
  }

  predicate IsTargetByte(b: byte) { 33 <= b <= 126 || 128 <= b }

  predicate IsFieldByte(b: byte) { b == TAB || 32 <= b <= 126 || 128 <= b }

  predicate All(s: bytes, p: byte -> bool) { forall i :: 0 <= i < |s| ==> p(s[i]) }

  datatype RequestLineParts = RequestLineParts(verb: bytes, target: bytes, major: byte, minor: byte)

  /** token SP target SP "HTTP/" DIGIT "." DIGIT */
  function MatchRequestLine(line: bytes): Option<RequestLineParts> {
    match IndexOf(line, SP)
    case None => None
    case Some(i) =>
      var rest := line[i + 1..];
      if i == 0 || |rest| < 10 then None else
      var verb, target, tail := line[..i], rest[..|rest| - 9], rest[|rest| - 9..];
      if All(verb, IsTokenByte) && All(target, IsTargetByte) && tail[..6] == Ascii(" HTTP/")
         && IsDigit(tail[6]) && tail[7] == 46 && IsDigit(tail[8])
      then Some(RequestLineParts(verb, target, tail[6], tail[8]))
      else None
  }

  function TrimBlanksLeft(s: bytes): bytes {
    if s != [] && (s[0] == SP || s[0] == TAB) then TrimBlanksLeft(s[1..]) else s
  }

  function TrimBlanksRight(s: bytes): bytes {
    if s != [] && (s[|s| - 1] == SP || s[|s| - 1] == TAB) then TrimBlanksRight(s[..|s| - 1]) else s
  }

  /** token ":" OWS value OWS */
  function MatchHeaderLine(line: bytes): Option<Header> {
    match IndexOf(line, 58)
    case None => None
    case Some(i) =>
      var name, value := line[..i], line[i + 1..];
      if i > 0 && All(name, IsTokenByte) && All(value, IsFieldByte)
      then Some(Header(name, TrimBlanksRight(TrimBlanksLeft(value))))
      else None
  }

  function HexPrefix(line: bytes): nat {
    if line != [] && DigitValue(line[0]).Some? then 1 + HexPrefix(line[1..]) else 0
  }

  /** 1 to 16 hexadecimal digits, then nothing or ";" and an extension. */
  function MatchChunkSize(line: bytes): Option<nat> {
    var n := HexPrefix(line);
    HexPrefixIsNumeral(line);
    if 1 <= n <= 16 && (n == |line| || (line[n] == 59 && All(line[n + 1..], IsFieldByte)))
    then Some(NumeralValue(line[..n], 16))
    else None
  }

  lemma HexPrefixIsNumeral(line: bytes)
    ensures HexPrefix(line) <= |line|
    ensures HexPrefix(line) > 0 ==> IsNumeral(line[..HexPrefix(line)], 16)
  {
    if line != [] && DigitValue(line[0]).Some? {
      HexPrefixIsNumeral(line[1..]);
      var n := HexPrefix(line[1..]);
      assert line[..n + 1] == [line[0]] + line[1..][..n];
    }
  }

  // -- reading one line -----------------------------------------------------

  datatype LineRead = Line(line: bytes, rest: bytes) | NoLine | BadLine(error: ParserError, rest: bytes)

  /** One CRLF-terminated line off the front of `buffer`; a bare LF is rejected. */
  function ReadLine(buffer: bytes, maxSize: int, tooLong: ParserError): (r: LineRead)
    ensures r.Line? ==> |r.rest| + |r.line| + 2 == |buffer|
    ensures r.BadLine? ==> |r.rest| <= |buffer|
  {
    match IndexOf(buffer, LF)
    case None => if |buffer| > maxSize then BadLine(tooLong, buffer) else NoLine
    case Some(i) =>
      if i > maxSize then BadLine(tooLong, buffer)
      else if i > 0 && buffer[i - 1] == CR then Line(buffer[..i - 1], buffer[i + 1..])
      else BadLine(BareLf, buffer[i + 1..])
  }

  // -- the steps --------------------------------------------------------------

  /** What one `_step` comes to: `Again` is the `None` that keeps `next_event`
      looping, `Wait` is NEED_DATA, `Raise` leaves the sticky error behind. */
  datatype Step =
    | Again(next: Parser)
    | Emit(event: Event, next: Parser)
    | Wait(next: Parser)
    | Raise(next: Parser)

  /** The termination measure of `next_event`: the buffer shrinks, or the phase
      moves towards one that will consume from it. */
  function Rank(phase: Phase): nat {
    match phase
    case BodyLength => 3
    case ChunkBody => 3
    case Complete => 2
    case Failed => 0
    case _ => 1
  }

  predicate Advances(p: Parser, s: Step) {
    (s.Again? || s.Emit?) ==>
      || |s.next.buffer| < |p.buffer|
      || (s.next.buffer == p.buffer && Rank(s.next.phase) < Rank(p.phase))
  }

  /** What no step touches, that only a raise fails the parser, and that body
      pieces are never empty. */
  predicate Keeps(p: Parser, s: Step) {
    && (s.Emit? && s.event.BodyData? ==> s.event.data != [])
    && s.next.limits == p.limits && s.next.eof == p.eof
    && (if s.Raise? then s.next.phase == Failed && s.next.error.Some?
        else s.next.error == p.error && (s.next.phase == Failed ==> p.phase == Failed))
  }

  function Fail(p: Parser, e: ParserError): Step { Raise(p.(phase := Failed, error := Some(e))) }

  function NeedData(p: Parser, allowEof: bool): Step {
    if p.eof && !allowEof then Fail(p, UnexpectedEof) else Wait(p)
  }

  predicate AtStart(p: Parser) { p.phase == RequestLine && !p.started && p.error.None? }

  function DropBlankLine(p: Parser): Parser {
    if !p.started && CRLF <= p.buffer then p.(buffer := p.buffer[2..]) else p
  }

  function StepRequestLine(p0: Parser): (r: Step)
    ensures Advances(p0, r) && Keeps(p0, r)
  {
    var p := DropBlankLine(p0);
    if !p.started && p.buffer == [] then NeedData(p, true)
    else
      match ReadLine(p.buffer, p.limits.maxRequestLine, RequestLineTooLong)
      case NoLine => NeedData(p, !p.started)
      case BadLine(e, rest) => Fail(p.(buffer := rest), e)
      case Line(line, rest) => TakeRequestLine(p.(buffer := rest, started := true), line)
  }

  function TakeRequestLine(p: Parser, line: bytes): (r: Step)
    ensures r.next.buffer == p.buffer && !r.Wait? && Keeps(p, r)
  {
    match MatchRequestLine(line)
    case None => Fail(p, MalformedRequestLine)
    case Some(m) =>
      if m.major != 49 || (m.minor != 48 && m.minor != 49) then Fail(p, UnsupportedVersion)
      else if m.verb == Ascii("CONNECT") then Fail(p.(verb := m.verb), ConnectUnsupported)
      else Again(p.(verb := m.verb, target := m.target, phase := Headers,
                    version := if m.minor == 48 then Http10 else Http11))
  }

  function StepHeaders(p: Parser): (r: Step)
    ensures Advances(p, r) && Keeps(p, r)
  {
    match ReadLine(p.buffer, p.limits.maxHeadersSize - p.headersSize, HeadersTooLarge)
    case NoLine => NeedData(p, false)
    case BadLine(e, rest) => Fail(p.(buffer := rest), e)
    case Line(line, rest) =>
      TakeHeaderLine(p.(buffer := rest, headersSize := p.headersSize + |line| + 2), line)
  }

  function TakeHeaderLine(p: Parser, line: bytes): (r: Step)
    ensures r.next.buffer == p.buffer && !r.Wait? && Keeps(p, r)
  {
    if line == [] then FinishHeaders(p)
    else if line[0] == SP || line[0] == TAB then Fail(p, ObsoleteFolding)
    else
      match MatchHeaderLine(line)
      case None => Fail(p, MalformedHeader)
      case Some(h) =>
        if |p.headers| >= p.limits.maxHeaderCount then Fail(p, TooManyHeaders)
        else Again(p.(headers := p.headers + [Header(Lower(h.name), h.value)]))
  }

  function StepBodyLength(p: Parser): (r: Step)
    requires p.phase == BodyLength
    ensures Advances(p, r) && Keeps(p, r)
  {
    if p.remaining == 0 then Emit(EndOfMessage, p.(phase := Complete))
    else if p.buffer == [] then NeedData(p, false)
    else
      var take := Min(|p.buffer|, p.remaining);
      Emit(BodyData(p.buffer[..take]), p.(buffer := p.buffer[take..], remaining := p.remaining - take))
  }

  function StepChunkSize(p: Parser): (r: Step)
    ensures Advances(p, r) && Keeps(p, r)
  {
    match ReadLine(p.buffer, p.limits.maxChunkLine, ChunkLineTooLong)
    case NoLine => NeedData(p, false)
    case BadLine(e, rest) => Fail(p.(buffer := rest), e)
    case Line(line, rest) => TakeChunkSize(p.(buffer := rest), line)
  }

  function TakeChunkSize(p: Parser, line: bytes): (r: Step)
    ensures r.next.buffer == p.buffer && !r.Wait? && Keeps(p, r)
  {
    match MatchChunkSize(line)
    case None => Fail(p, MalformedChunkSize)
    case Some(size) =>
      if size == 0 then Again(p.(phase := Trailers))
      else
        var p := p.(bodySize := p.bodySize + size);
        if BodyOverLimit(p) then Fail(p, BodyTooLarge)
        else Again(p.(chunkRemaining := size, phase := ChunkBody))
  }

  predicate BodyOverLimit(p: Parser) {
    p.limits.maxBodySize.Some? && p.bodySize > p.limits.maxBodySize.value
  }

  function StepChunkBody(p: Parser): (r: Step)
    requires p.phase == ChunkBody
    ensures Advances(p, r) && Keeps(p, r)
  {
    if p.chunkRemaining == 0 then Again(p.(phase := ChunkCrlf))
    else if p.buffer == [] then NeedData(p, false)
    else
      var take := Min(|p.buffer|, p.chunkRemaining);
      Emit(BodyData(p.buffer[..take]),
           p.(buffer := p.buffer[take..], chunkRemaining := p.chunkRemaining - take))
  }

  function StepChunkCrlf(p: Parser): (r: Step)
    ensures Advances(p, r) && Keeps(p, r)
  {
    match ReadLine(p.buffer, 2, ChunkNotTerminated)
    case NoLine => NeedData(p, false)
    case BadLine(e, rest) => Fail(p.(buffer := rest), e)
    case Line(line, rest) =>
      var p := p.(buffer := rest);
      if line != [] then Fail(p, ChunkNotTerminated) else Again(p.(phase := ChunkSize))
  }

  function StepTrailers(p: Parser): (r: Step)
    ensures Advances(p, r) && Keeps(p, r)
  {
    match ReadLine(p.buffer, p.limits.maxHeadersSize - p.headersSize, HeadersTooLarge)
    case NoLine => NeedData(p, false)
    case BadLine(e, rest) => Fail(p.(buffer := rest), e)
    case Line(line, rest) =>
      var p := p.(buffer := rest, headersSize := p.headersSize + |line| + 2);
      if line == [] then Emit(EndOfMessage, p.(phase := Complete))
      else if MatchHeaderLine(line).None? then Fail(p, MalformedTrailer)
      else Again(p)
  }

  function StepOf(p: Parser): (r: Step)
    ensures Advances(p, r) && Keeps(p, r)
  {
    match p.phase
    case RequestLine => StepRequestLine(p)
    case Headers => StepHeaders(p)
    case BodyLength => StepBodyLength(p)
    case ChunkSize => StepChunkSize(p)
    case ChunkBody => StepChunkBody(p)
    case ChunkCrlf => StepChunkCrlf(p)
    case Trailers => StepTrailers(p)
    case Complete => Wait(p)
    case Failed => Wait(p)
  }

  // -- the end of the headers: how the message is framed -----------------------

  function Min(a: nat, b: nat): nat { if a < b then a else b }

  function ValuesOf(headers: seq<Header>, name: bytes): seq<bytes> {
    if headers == [] then []
    else
      var front := ValuesOf(headers[..|headers| - 1], name);
      var last := headers[|headers| - 1];
      if last.name == name then front + [last.value] else front
  }

  /** Whether a comma-separated list carries `token`, case and blanks aside. */
  predicate ListHasToken(value: bytes, token: bytes) {
    exists i :: 0 <= i < |Split(value, 44)| && Lower(Strip(Split(value, 44)[i])) == token
  }

  predicate HasConnectionToken(headers: seq<Header>, token: bytes) {
    var values := ValuesOf(headers, Ascii("connection"));
    exists i :: 0 <= i < |values| && ListHasToken(values[i], token)
  }

  datatype Framing = Framing(chunked: bool, contentLength: Option<nat>)

  datatype Framed = FramedAs(framing: Framing) | FramingError(error: ParserError)

  predicate IsContentLength(s: bytes) { IsNumeral(s, 10) && |s| <= 19 }

  /** How the body is delimited: rejected whenever two readings are possible. */
  function FramingOf(headers: seq<Header>, version: Version): Framed {
    var hosts := |ValuesOf(headers, Ascii("host"))|;
    if hosts > 1 then FramingError(DuplicateHost)
    else if hosts == 0 && version == Http11 then FramingError(MissingHost)
    else BodyFraming(headers, version)
  }

  function BodyFraming(headers: seq<Header>, version: Version): Framed {
    var lengths := ValuesOf(headers, Ascii("content-length"));
    var codings := ValuesOf(headers, Ascii("transfer-encoding"));
    if codings != [] then
      if lengths != [] then FramingError(BothFramings)
      else if |codings| > 1 then FramingError(DuplicateTransferEncoding)
      else if Lower(Strip(codings[0])) != Ascii("chunked") then FramingError(UnsupportedCoding)
      else if version == Http10 then FramingError(TransferEncodingInHttp10)
      else FramedAs(Framing(true, None))
    else if lengths != [] then
      if |lengths| > 1 then FramingError(DuplicateContentLength)
      else if !IsContentLength(lengths[0]) then FramingError(MalformedContentLength)
      else FramedAs(Framing(false, Some(NumeralValue(lengths[0], 10))))
    else FramedAs(Framing(false, None))
  }

  datatype Target = Target(rawPath: bytes, query: bytes)

  function PartitionQuery(s: bytes): Target {
    match IndexOf(s, 63)
    case None => Target(s, [])
    case Some(i) => Target(s[..i], s[i + 1..])
  }

  function SplitTarget(target: bytes): Option<Target> {
    if Ascii("/") <= target then Some(PartitionQuery(target))
    else if target == Ascii("*") then Some(Target(target, []))
    else
      match Find(target, Ascii("://"))
      case None => None
      case Some(i) =>
        if Lower(target[..i]) != Ascii("http") && Lower(target[..i]) != Ascii("https") then None
        else
          var rest := target[i + 3..];
          match IndexOf(rest, 47)
          case None => Some(Target(Ascii("/"), []))
          case Some(slash) => Some(PartitionQuery(rest[slash..]))
  }

  function LengthOf(framing: Framing): nat {
    if framing.contentLength.Some? then framing.contentLength.value else 0
  }

  datatype BuiltHead = GoodHead(head: RequestHead) | BadHead(error: ParserError)

  function BuildHead(verb: bytes, version: Version, target: bytes, headers: seq<Header>, framing: Framing): BuiltHead {
    var expects := ValuesOf(headers, Ascii("expect"));
    if |expects| > 1 || (|expects| == 1 && Lower(Strip(expects[0])) != Ascii("100-continue"))
    then BadHead(UnsupportedExpectation)
    else
      match SplitTarget(target)
      case None => BadHead(UnsupportedTarget)
      case Some(t) =>
        if !All(t.rawPath, IsAscii) then BadHead(TargetNotAscii)
        else
          var keepAlive :=
            if version == Http11 then !HasConnectionToken(headers, Ascii("close"))
            else HasConnectionToken(headers, Ascii("keep-alive"));
          GoodHead(RequestHead(verb, version, t.rawPath, t.query, headers, keepAlive,
                               expects != [] && version == Http11, framing.chunked, framing.contentLength))
  }

  function FinishHeaders(p: Parser): (r: Step)
    ensures r.next.buffer == p.buffer && !r.Wait? && !r.Again? && Keeps(p, r)
  {
    match FramingOf(p.headers, p.version)
    case FramingError(e) => Fail(p, e)
    case FramedAs(framing) =>
      var p := p.(bodySize := p.bodySize + LengthOf(framing));
      if framing.contentLength.Some? && BodyOverLimit(p) then Fail(p, BodyTooLarge)
      else
        match BuildHead(p.verb, p.version, p.target, p.headers, framing)
        case BadHead(e) => Fail(p, e)
        case GoodHead(head) =>
          Emit(Head(head),
               if framing.chunked then p.(phase := ChunkSize)
               else p.(remaining := LengthOf(framing), phase := BodyLength))
  }

  predicate IsAscii(b: byte) { b < 128 }

  // -- next_event and draining ------------------------------------------------

  datatype Outcome = NeedsData | Got(event: Event) | Raised(error: ParserError)

  datatype Turn = Turn(outcome: Outcome, next: Parser)

  /** One call of `next_event`. */
  function NextEvent(p: Parser): Turn
    decreases |p.buffer|, Rank(p.phase)
  {
    if p.error.Some? then Turn(Raised(p.error.value), p)
    else
      match StepOf(p)
      case Again(next) => NextEvent(next)
      case Emit(event, next) => Turn(Got(event), next)
      case Wait(next) => Turn(NeedsData, next)
      case Raise(next) => Turn(Raised(next.error.value), next)
  }

  datatype Drained = Drained(events: seq<Event>, next: Parser)

  /** The documented loop: `next_event` until it needs data or raises. With
      `serial`, the next message is started as soon as one is complete. */
  function Drain(p: Parser, serial: bool): Drained
    decreases |p.buffer|, Rank(p.phase)
  {
    if p.error.Some? then Drained([], p)
    else if p.phase == Complete then
      if serial then Drain(StartNext(p), serial) else Drained([], p)
    else
      match StepOf(p)
      case Again(next) => Drain(next, serial)
      case Emit(event, next) => var rest := Drain(next, serial); Drained([event] + rest.events, rest.next)
      case Wait(next) => Drained([], next)
      case Raise(next) => Drained([], next)
  }

  lemma {:induction false} NextEventDrains(p: Parser, serial: bool)
    requires p.error.None? && p.phase != Complete
    ensures var t := NextEvent(p);
            && (t.outcome.Got? ==>
                  && t.next.error.None?
                  && (|t.next.buffer| < |p.buffer| || (t.next.buffer == p.buffer && Rank(t.next.phase) < Rank(p.phase)))
                  && Drain(p, serial) == Drained([t.outcome.event] + Drain(t.next, serial).events, Drain(t.next, serial).next))
            && (!t.outcome.Got? ==> Drain(p, serial) == Drained([], t.next))
    decreases |p.buffer|, Rank(p.phase)
  {
    assert Advances(p, StepOf(p)) && Keeps(p, StepOf(p));
    hide StepOf;
    match StepOf(p)
    case Again(next) =>
      assert next.phase != Complete by { AgainIsNotComplete(p); }
      NextEventDrains(next, serial);
    case _ =>
  }

  lemma AgainIsNotComplete(p: Parser)
    requires p.phase != Complete
    ensures StepOf(p).Again? ==> StepOf(p).next.phase != Complete
  {
    hide ReadLine, MatchRequestLine, MatchHeaderLine, FinishHeaders, MatchChunkSize;
  }
}
