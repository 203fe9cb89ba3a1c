/** Byte accounting over every run of the parser's calls: what was handed out and
    what is still owed always make up the declared size. */
module ParserAccount {
  import opened Bytes
  import opened ParserSpec

  /** What a reader of the events has seen: the message in progress, if any, and how
      many of its body bytes. */
  datatype Ledger = Ledger(open: Option<RequestHead>, delivered: nat)

  const IDLE := Ledger(None, 0)

  /** Books one event, or `None` where the event breaks the grammar head, body, end:
      a body over a declared length, an end before it, or a body with no head. */
  function Book(l: Ledger, e: Event): Option<Ledger> {
    match e
    case Head(h) => if l.open.Some? then None else Some(Ledger(Some(h), 0))
    case BodyData(data) =>
      if l.open.None? || data == [] then None
      else if !l.open.value.chunked && l.delivered + |data| > DeclaredLength(l.open.value) then None
      else Some(Ledger(l.open, l.delivered + |data|))
    case EndOfMessage =>
      if l.open.None? || (!l.open.value.chunked && l.delivered != DeclaredLength(l.open.value)) then None
      else Some(IDLE)
  }

  function DeclaredLength(h: RequestHead): nat { if h.contentLength.Some? then h.contentLength.value else 0 }

  function BookAll(l: Ledger, events: seq<Event>): Option<Ledger>
    decreases |events|
  {
    if events == [] then Some(l)
    else
      match Book(l, events[0])
      case None => None
      case Some(next) => BookAll(next, events[1..])
  }

  lemma BookConcat(l: Ledger, a: seq<Event>, b: seq<Event>)
    ensures BookAll(l, a + b) ==
            match BookAll(l, a) case None => None case Some(m) => BookAll(m, b)
    decreases |a|
  {
    if a == [] {
      assert a + b == b;
    } else {
      assert (a + b)[1..] == a[1..] + b;
      match Book(l, a[0])
      case None =>
      case Some(next) => BookConcat(next, a[1..], b);
    }
  }

  predicate WithinLimit(p: Parser) {
    p.limits.maxBodySize.Some? && p.bodySize > 0 ==> p.bodySize <= p.limits.maxBodySize.value
  }

  /** The parser's own counters agree with the ledger: delivered plus owed is the
      body size, and nothing is owed outside a body. */
  predicate Accounted(p: Parser, l: Ledger) {
    p.error.Some? ||
    (&& WithinLimit(p)
     && match p.phase
        case RequestLine => l == IDLE && p.bodySize == 0 && p.remaining == 0 && p.chunkRemaining == 0
        case Headers => l == IDLE && p.bodySize == 0 && p.remaining == 0 && p.chunkRemaining == 0
        case BodyLength =>
          && l.open.Some? && !l.open.value.chunked && p.bodySize == DeclaredLength(l.open.value)
          && l.delivered + p.remaining == p.bodySize && p.chunkRemaining == 0
        case ChunkBody =>
          && l.open.Some? && l.open.value.chunked && p.remaining == 0
          && l.delivered + p.chunkRemaining == p.bodySize
        case Complete => l == IDLE && p.remaining == 0 && p.chunkRemaining == 0
        case Failed => false
        case _ =>
          && l.open.Some? && l.open.value.chunked && p.remaining == 0 && p.chunkRemaining == 0
          && l.delivered == p.bodySize)
  }

  predicate StepAccounted(s: Step, l: Ledger) {
    match s
    case Emit(e, next) => Book(l, e).Some? && Accounted(next, Book(l, e).value)
    case _ => Accounted(s.next, l)
  }

  lemma RequestLineAccounts(p: Parser, l: Ledger)
    requires Accounted(p, l) && p.error.None? && p.phase == RequestLine
    ensures StepAccounted(StepOf(p), l)
  {
    hide ReadLine, MatchRequestLine, StepHeaders, StepBodyLength, StepChunkSize, StepChunkBody, StepChunkCrlf, StepTrailers;
  }

  lemma HeaderLineAccounts(p: Parser, line: bytes, l: Ledger)
    requires Accounted(p, l) && p.error.None? && p.phase == Headers
    ensures StepAccounted(TakeHeaderLine(p, line), l)
  {
    FinishAccountsOne(p, l);
    hide MatchHeaderLine, FinishHeaders;
  }

  lemma HeadersAccount(p: Parser, l: Ledger)
    requires Accounted(p, l) && p.error.None? && p.phase == Headers
    ensures StepAccounted(StepHeaders(p), l)
  {
    hide ReadLine, TakeHeaderLine;
    match ReadLine(p.buffer, p.limits.maxHeadersSize - p.headersSize, HeadersTooLarge)
    case Line(line, rest) => HeaderLineAccounts(p.(buffer := rest, headersSize := p.headersSize + |line| + 2), line, l);
    case _ =>
  }

  lemma HeaderStepsAccount(p: Parser, l: Ledger)
    requires Accounted(p, l) && p.error.None? && (p.phase == RequestLine || p.phase == Headers)
    ensures StepAccounted(StepOf(p), l)
  {
    if p.phase == Headers {
      HeadersAccount(p, l);
      hide StepHeaders, Accounted, StepAccounted;
    } else {
      RequestLineAccounts(p, l);
    }
  }

  lemma FinishAccountsOne(q: Parser, l: Ledger)
    requires l == IDLE && q.bodySize == 0 && q.remaining == 0 && q.chunkRemaining == 0
    ensures StepAccounted(FinishHeaders(q), l)
  {
    FramingLengths(q.headers, q.version);
    hide FramingOf;
    match FramingOf(q.headers, q.version)
    case FramingError(_) =>
    case FramedAs(framing) => BuiltHeadFrames(q.verb, q.version, q.target, q.headers, framing);
      hide BuildHead;
  }

  lemma FramingLengths(headers: seq<Header>, version: Version)
    ensures FramingOf(headers, version).FramedAs? ==>
              (FramingOf(headers, version).framing.chunked ==> FramingOf(headers, version).framing.contentLength.None?)
  {
    hide ValuesOf, IsContentLength, Lower, Strip;
  }

  lemma BuiltHeadFrames(verb: bytes, version: Version, target: bytes, headers: seq<Header>, framing: Framing)
    ensures var b := BuildHead(verb, version, target, headers, framing);
            b.GoodHead? ==> b.head.chunked == framing.chunked && b.head.contentLength == framing.contentLength
  {
    hide ValuesOf, SplitTarget, HasConnectionToken, Lower, Strip;
  }

  lemma BodyStepsAccount(p: Parser, l: Ledger)
    requires Accounted(p, l) && p.error.None? && p.phase != RequestLine && p.phase != Headers
    ensures StepAccounted(StepOf(p), l)
  {
    hide ReadLine, MatchChunkSize, MatchHeaderLine;
  }

  lemma StepAccounts(p: Parser, l: Ledger)
    requires Accounted(p, l) && p.error.None?
    ensures StepAccounted(StepOf(p), l)
  {
    hide StepOf;
    if p.phase == RequestLine || p.phase == Headers {
      HeaderStepsAccount(p, l);
    } else {
      BodyStepsAccount(p, l);
    }
  }

  predicate DrainAccounted(d: Drained, l: Ledger) {
    BookAll(l, d.events).Some? && Accounted(d.next, BookAll(l, d.events).value)
  }

  lemma {:induction false} NextEventAccounts(p: Parser, l: Ledger)
    requires Accounted(p, l)
    ensures var t := NextEvent(p);
            if t.outcome.Got? then Book(l, t.outcome.event).Some? && Accounted(t.next, Book(l, t.outcome.event).value)
            else Accounted(t.next, l)
    decreases |p.buffer|, Rank(p.phase)
  {
    if p.error.None? {
      StepAccounts(p, l);
      hide StepOf, Accounted, Book;
      if StepOf(p).Again? {
        NextEventAccounts(StepOf(p).next, l);
      }
    }
  }

  lemma {:induction false} DrainAccounts(p: Parser, l: Ledger, serial: bool)
    requires Accounted(p, l)
    ensures DrainAccounted(Drain(p, serial), l)
    decreases |p.buffer|, Rank(p.phase)
  {
    if p.error.Some? {
    } else if p.phase == Complete {
      if serial { DrainAccounts(StartNext(p), l, serial); }
    } else {
      StepAccounts(p, l);
      hide StepOf, Accounted, Book;
      match StepOf(p)
      case Again(next) => DrainAccounts(next, l, serial);
      case Emit(e, next) => DrainAccounts(next, Book(l, e).value, serial);
      case _ =>
    }
  }

  // -- every run of calls -----------------------------------------------------

  /** The public calls. `StartNextMessage` on an incomplete message raises and
      changes nothing. */
  datatype Call = FeedData(data: bytes) | FeedEof | AskNextEvent | StartNextMessage

  function Perform(p: Parser, call: Call): Drained {
    match call
    case FeedData(data) => Drained([], Feed(p, data))
    case FeedEof => Drained([], p.(eof := true))
    case AskNextEvent =>
      var t := NextEvent(p);
      Drained(if t.outcome.Got? then [t.outcome.event] else [], t.next)
    case StartNextMessage => Drained([], if p.phase == Complete then StartNext(p) else p)
  }

  function PerformAll(p: Parser, calls: seq<Call>): Drained
    decreases |calls|
  {
    if calls == [] then Drained([], p)
    else
      var first := Perform(p, calls[0]);
      var rest := PerformAll(first.next, calls[1..]);
      Drained(first.events + rest.events, rest.next)
  }

  lemma PerformAccounts(p: Parser, l: Ledger, call: Call)
    requires Accounted(p, l)
    ensures DrainAccounted(Perform(p, call), l)
  {
    if call.AskNextEvent? {
      hide NextEvent, Book, Accounted;
      NextEventAccounts(p, l);
      var t := NextEvent(p);
      if t.outcome.Got? {
        BookOne(l, t.outcome.event);
      }
    }
  }

  lemma BookOne(l: Ledger, e: Event)
    ensures BookAll(l, [e]) == Book(l, e)
  {
    hide Book;
    assert [e][1..] == [];
  }

  /** Whatever calls are made in whatever order, the events obey the grammar, every
      body has its declared length at its end, and the counters are exact. */
  lemma {:induction false} EveryRunIsAccounted(p: Parser, l: Ledger, calls: seq<Call>)
    requires Accounted(p, l)
    ensures DrainAccounted(PerformAll(p, calls), l)
    decreases |calls|
  {
    if calls != [] {
      hide Perform, Accounted, Book;
      PerformAccounts(p, l, calls[0]);
      var first := Perform(p, calls[0]);
      var rest := PerformAll(first.next, calls[1..]);
      var m := BookAll(l, first.events).value;
      EveryRunIsAccounted(first.next, m, calls[1..]);
      BookConcat(l, first.events, rest.events);
    }
  }
}
