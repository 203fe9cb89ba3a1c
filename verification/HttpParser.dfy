/** The incremental HTTP/1.1 request parser in its own form: an object whose
    methods update the buffer, the state and the counters in place. */
module HttpParser {
  import opened Bytes
  import opened ParserSpec

  /** What a step returns to the loop in `next_event`: `None`, an event, NEED_DATA,
      or the exception. */
  datatype Answer = NoAnswer | Answered(event: Event) | NeedMore | Raises(error: ParserError)

  datatype TakenLine = TookLine(line: bytes) | NotYet | Refused(error: ParserError)

  /** The answer and the fields left behind are those of the specified step; the
      handler in `NextEvent` completes a raise. */
  ghost predicate Answers(s: Step, a: Answer, now: Parser) {
    match s
    case Again(next) => a == NoAnswer && now == next
    case Emit(event, next) => a == Answered(event) && now == next
    case Wait(next) => a == NeedMore && now == next
    case Raise(next) => a.Raises? && next == now.(phase := Failed, error := Some(a.error))
  }

  class HttpParser {
    const limits: Limits
    var buffer: bytes
    var eof: bool
    var error: Option<ParserError>
    var phase: Phase
    var headers: seq<Header>
    var headersSize: nat
    var verb: bytes
    var target: bytes
    var version: Version
    var remaining: nat
    var chunkRemaining: nat
    var bodySize: nat
    var started: bool

    ghost function State(): Parser
      reads this
    {
      Parser(limits, buffer, eof, error, phase, headers, headersSize, verb, target, version,
             remaining, chunkRemaining, bodySize, started)
    }

    constructor (limits: Limits)
      ensures State() == Fresh(limits)
    {
      this.limits := limits;
      buffer, eof, error, phase := [], false, None, RequestLine;
      headers, headersSize, verb, target, version := [], 0, [], [], Http11;
      remaining, chunkRemaining, bodySize, started := 0, 0, 0, false;
    }

    method ResetMessage()
      modifies this
      ensures State() == Reset(old(State()))
    {
      headers, headersSize, verb, target, version := [], 0, [], [], Http11;
      remaining, chunkRemaining, bodySize, started := 0, 0, 0, false;
    }

    method FeedData(data: bytes)
      modifies this
      ensures State() == Feed(old(State()), data)
    {
      buffer := buffer + data;
    }

    method FeedEof()
      modifies this
      ensures State() == old(State()).(eof := true)
    {
      eof := true;
    }

    /** `ok` is false where `start_next_message` raises: the current request is not complete. */
    method StartNextMessage() returns (ok: bool)
      modifies this
      ensures ok <==> old(phase) == Complete
      ensures State() == if ok then StartNext(old(State())) else old(State())
    {
      if phase != Complete {
        return false;
      }
      phase := RequestLine;
      ResetMessage();
      return true;
    }

    method NextEvent() returns (o: Outcome)
      modifies this
      ensures Turn(o, State()) == ParserSpec.NextEvent(old(State()))
    {
      if error.Some? {
        return Raised(error.value);
      }
      while true
        invariant error.None?
        invariant ParserSpec.NextEvent(State()) == ParserSpec.NextEvent(old(State()))
        decreases |buffer|, Rank(phase)
      {
        ghost var before := State();
        assert Advances(before, StepOf(before)) && Keeps(before, StepOf(before));
        hide StepOf;
        var answer := DoStep();
        match answer
        case Answered(event) => return Got(event);
        case NeedMore => return NeedsData;
        case Raises(e) =>
          phase, error := Failed, Some(e);
          return Raised(e);
        case NoAnswer =>
      }
    }

    method DoStep() returns (a: Answer)
      modifies this
      ensures Answers(StepOf(old(State())), a, State())
    {
      hide StepRequestLine, StepHeaders, StepBodyLength, StepChunkSize, StepChunkBody, StepChunkCrlf, StepTrailers;
      match phase
      case RequestLine => a := DoRequestLine();
      case Headers => a := DoHeaders();
      case BodyLength => a := DoBodyLength();
      case ChunkSize => a := DoChunkSize();
      case ChunkBody => a := DoChunkBody();
      case ChunkCrlf => a := DoChunkCrlf();
      case Trailers => a := DoTrailers();
      case _ => a := NeedMore;
    }

    // -- states -------------------------------------------------------------

    method DoRequestLine() returns (a: Answer)
      modifies this
      ensures Answers(StepRequestLine(old(State())), a, State())
    {
      hide ReadLine, TakeRequestLine;
      if !started {
        if CRLF <= buffer {
          buffer := buffer[2..];
        }
        if buffer == [] {
          a := AwaitData(true);
          return;
        }
      }
      assert State() == DropBlankLine(old(State()));
      var r := TakeLine(limits.maxRequestLine, RequestLineTooLong);
      match r
      case NotYet => a := AwaitData(!started);
      case Refused(e) => return Raises(e);
      case TookLine(line) =>
        started := true;
        a := MatchLine(line);
    }

    method MatchLine(line: bytes) returns (a: Answer)
      modifies this
      ensures Answers(TakeRequestLine(old(State()), line), a, State())
    {
      hide MatchRequestLine;
      match MatchRequestLine(line)
      case None => return Raises(MalformedRequestLine);
      case Some(m) =>
        if m.major != 49 || (m.minor != 48 && m.minor != 49) {
          return Raises(UnsupportedVersion);
        }
        verb := m.verb;
        if verb == Ascii("CONNECT") {
          return Raises(ConnectUnsupported);
        }
        target := m.target;
        version := if m.minor == 48 then Http10 else Http11;
        phase := Headers;
        return NoAnswer;
    }

    method DoHeaders() returns (a: Answer)
      modifies this
      ensures Answers(StepHeaders(old(State())), a, State())
    {
      hide ReadLine, MatchHeaderLine, ParserSpec.FinishHeaders, Keeps, Advances;
      var room := limits.maxHeadersSize - headersSize;
      var r := TakeLine(room, HeadersTooLarge);
      match r
      case NotYet => a := AwaitData(false);
      case Refused(e) => return Raises(e);
      case TookLine(line) =>
        headersSize := headersSize + |line| + 2;
        if line == [] {
          a := FinishHeaders();
          return;
        }
        if line[0] == SP || line[0] == TAB {
          return Raises(ObsoleteFolding);
        }
        var m := MatchHeaderLine(line);
        if m.None? {
          return Raises(MalformedHeader);
        }
        if |headers| >= limits.maxHeaderCount {
          return Raises(TooManyHeaders);
        }
        headers := headers + [Header(Lower(m.value.name), m.value.value)];
        return NoAnswer;
    }

    method DoBodyLength() returns (a: Answer)
      requires phase == BodyLength
      modifies this
      ensures Answers(StepBodyLength(old(State())), a, State())
    {
      if remaining == 0 {
        phase := Complete;
        return Answered(EndOfMessage);
      }
      if buffer == [] {
        a := AwaitData(false);
        return;
      }
      var take := Min(|buffer|, remaining);
      var data := buffer[..take];
      buffer, remaining := buffer[take..], remaining - take;
      return Answered(BodyData(data));
    }

    method DoChunkSize() returns (a: Answer)
      modifies this
      ensures Answers(StepChunkSize(old(State())), a, State())
    {
      hide ReadLine, MatchChunkSize;
      var r := TakeLine(limits.maxChunkLine, ChunkLineTooLong);
      match r
      case NotYet => a := AwaitData(false);
      case Refused(e) => return Raises(e);
      case TookLine(line) =>
        var m := MatchChunkSize(line);
        if m.None? {
          return Raises(MalformedChunkSize);
        }
        var size := m.value;
        if size == 0 {
          phase := Trailers;
          return NoAnswer;
        }
        var fits := AccountBody(size);
        if !fits {
          return Raises(BodyTooLarge);
        }
        chunkRemaining, phase := size, ChunkBody;
        return NoAnswer;
    }

    method DoChunkBody() returns (a: Answer)
      requires phase == ChunkBody
      modifies this
      ensures Answers(StepChunkBody(old(State())), a, State())
    {
      if chunkRemaining == 0 {
        phase := ChunkCrlf;
        return NoAnswer;
      }
      if buffer == [] {
        a := AwaitData(false);
        return;
      }
      var take := Min(|buffer|, chunkRemaining);
      var data := buffer[..take];
      buffer, chunkRemaining := buffer[take..], chunkRemaining - take;
      return Answered(BodyData(data));
    }

    method DoChunkCrlf() returns (a: Answer)
      modifies this
      ensures Answers(StepChunkCrlf(old(State())), a, State())
    {
      hide ReadLine;
      var r := TakeLine(2, ChunkNotTerminated);
      match r
      case NotYet => a := AwaitData(false);
      case Refused(e) => return Raises(e);
      case TookLine(line) =>
        if line != [] {
          return Raises(ChunkNotTerminated);
        }
        phase := ChunkSize;
        return NoAnswer;
    }

    method DoTrailers() returns (a: Answer)
      modifies this
      ensures Answers(StepTrailers(old(State())), a, State())
    {
      hide ReadLine, MatchHeaderLine;
      var room := limits.maxHeadersSize - headersSize;
      var r := TakeLine(room, HeadersTooLarge);
      match r
      case NotYet => a := AwaitData(false);
      case Refused(e) => return Raises(e);
      case TookLine(line) =>
        headersSize := headersSize + |line| + 2;
        if line == [] {
          phase := Complete;
          return Answered(EndOfMessage);
        }
        if MatchHeaderLine(line).None? {
          return Raises(MalformedTrailer);
        }
        return NoAnswer;
    }

    // -- helpers --------------------------------------------------------------

    method AwaitData(allowEof: bool) returns (a: Answer)
      ensures Answers(NeedData(State(), allowEof), a, State())
    {
      return if eof && !allowEof then Raises(UnexpectedEof) else NeedMore;
    }

    /** Cuts one CRLF-terminated line off the buffer. */
    method TakeLine(maxSize: int, tooLong: ParserError) returns (r: TakenLine)
      modifies this`buffer
      ensures match ReadLine(old(buffer), maxSize, tooLong)
              case NoLine => r == NotYet && buffer == old(buffer)
              case BadLine(e, rest) => r == Refused(e) && buffer == rest
              case Line(line, rest) => r == TookLine(line) && buffer == rest
    {
      var index := IndexOf(buffer, LF);
      if index.None? {
        return if |buffer| > maxSize then Refused(tooLong) else NotYet;
      }
      if index.value > maxSize {
        return Refused(tooLong);
      }
      var line := buffer[..index.value];
      buffer := buffer[index.value + 1..];
      if line == [] || line[|line| - 1] != CR {
        return Refused(BareLf);
      }
      return TookLine(line[..|line| - 1]);
    }

    /** `fits` is false where the body is over the limit and the parser raises 413. */
    method AccountBody(size: nat) returns (fits: bool)
      modifies this`bodySize
      ensures bodySize == old(bodySize) + size
      ensures fits <==> !BodyOverLimit(State())
    {
      bodySize := bodySize + size;
      fits := limits.maxBodySize.None? || bodySize <= limits.maxBodySize.value;
    }

    /** One pass over the headers collects the values that decide the framing. */
    method CollectValues(name: bytes) returns (values: seq<bytes>)
      ensures values == ValuesOf(headers, name)
    {
      values := [];
      for i := 0 to |headers|
        invariant values == ValuesOf(headers[..i], name)
      {
        if headers[i].name == name {
          values := values + [headers[i].value];
        }
        assert headers[..i + 1][..i] == headers[..i];
      }
      assert headers[..|headers|] == headers;
    }

    method FinishHeaders() returns (a: Answer)
      modifies this
      ensures Answers(ParserSpec.FinishHeaders(old(State())), a, State())
    {
      hide BuildHead;
      var framed := ChooseFraming();
      hide FramingOf;
      match framed
      case FramingError(e) => return Raises(e);
      case FramedAs(framing) =>
        var fits := AccountBody(LengthOf(framing));
        if framing.contentLength.Some? && !fits {
          return Raises(BodyTooLarge);
        }
        match BuildHead(verb, version, target, headers, framing) {
          case BadHead(e) => return Raises(e);
          case GoodHead(head) =>
            if framing.chunked {
              phase := ChunkSize;
            } else {
              remaining, phase := LengthOf(framing), BodyLength;
            }
            return Answered(Head(head));
        }
    }

    method ChooseFraming() returns (r: Framed)
      ensures r == FramingOf(headers, version)
    {
      hide ValuesOf, Lower, Strip;
      var hosts := CollectValues(Ascii("host"));
      if |hosts| > 1 {
        return FramingError(DuplicateHost);
      }
      if hosts == [] && version == Http11 {
        return FramingError(MissingHost);
      }
      var lengths := CollectValues(Ascii("content-length"));
      var codings := CollectValues(Ascii("transfer-encoding"));
      if codings != [] {
        if lengths != [] {
          return FramingError(BothFramings);
        }
        if |codings| > 1 {
          return FramingError(DuplicateTransferEncoding);
        }
        if Lower(Strip(codings[0])) != Ascii("chunked") {
          return FramingError(UnsupportedCoding);
        }
        if version == Http10 {
          return FramingError(TransferEncodingInHttp10);
        }
        return FramedAs(Framing(true, None));
      }
      if lengths == [] {
        return FramedAs(Framing(false, None));
      }
      if |lengths| > 1 {
        return FramingError(DuplicateContentLength);
      }
      if !IsContentLength(lengths[0]) {
        return FramingError(MalformedContentLength);
      }
      return FramedAs(Framing(false, Some(NumeralValue(lengths[0], 10))));
    }
  }

  // -- the documented loop -----------------------------------------------------

  /** `next_event` until it needs data or raises, starting the next message where
      `serial` says so: what a server does with each read. */
  method DrainEvents(parser: HttpParser, serial: bool) returns (events: seq<Event>)
    modifies parser
    ensures Drained(events, parser.State()) == Drain(old(parser.State()), serial)
  {
    hide StepOf, ParserSpec.NextEvent;
    events := [];
    ghost var all := Drain(parser.State(), serial);
    while true
      invariant var rest := Drain(parser.State(), serial);
                all == Drained(events + rest.events, rest.next)
      decreases |parser.buffer|, Rank(parser.phase)
    {
      if parser.error.Some? {
        return;
      }
      if parser.phase == Complete {
        if !serial {
          return;
        }
        var _ := parser.StartNextMessage();
      } else {
        NextEventDrains(parser.State(), serial);
        var o := parser.NextEvent();
        if !o.Got? {
          return;
        }
        events := events + [o.event];
      }
    }
  }
}
