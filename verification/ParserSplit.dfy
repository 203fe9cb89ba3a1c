/** Split independence of the HTTP parser: what it answers depends on the bytes of
    the stream and not on how the socket cut them. */
module ParserSplit {
  import opened Bytes
  import opened ParserSpec

  // -- one step with more bytes behind it ----------------------------------------

  function FeedStep(s: Step, x: bytes): Step {
    match s
    case Again(next) => Again(Feed(next, x))
    case Emit(event, next) => Emit(event, Feed(next, x))
    case Wait(next) => Wait(Feed(next, x))
    case Raise(next) => Raise(Feed(next, x))
  }

  lemma ReadLineExtends(buffer: bytes, x: bytes, maxSize: int, tooLong: ParserError)
    ensures match ReadLine(buffer, maxSize, tooLong)
            case Line(line, rest) => ReadLine(buffer + x, maxSize, tooLong) == Line(line, rest + x)
            case BadLine(e, rest) => ReadLine(buffer + x, maxSize, tooLong) == BadLine(e, rest + x)
            case NoLine => true
  {
    match IndexOf(buffer, LF)
    case None =>
      var later := IndexOf(buffer + x, LF);
      assert later.Some? ==> later.value >= |buffer|;
    case Some(i) =>
      IndexOfExtend(buffer, x, LF);
      assert (buffer + x)[i + 1..] == buffer[i + 1..] + x;
      assert i > 0 ==> (buffer + x)[..i - 1] == buffer[..i - 1];
  }

  lemma FinishHeadersExtends(p: Parser, x: bytes)
    ensures FinishHeaders(Feed(p, x)) == FeedStep(FinishHeaders(p), x)
  {
    hide FramingOf, BuildHead;
  }

  lemma TakeHeaderLineExtends(p: Parser, line: bytes, x: bytes)
    ensures TakeHeaderLine(Feed(p, x), line) == FeedStep(TakeHeaderLine(p, line), x)
  {
    hide FinishHeaders, MatchHeaderLine;
    FinishHeadersExtends(p, x);
  }

  lemma TakeRequestLineExtends(p: Parser, line: bytes, x: bytes)
    ensures TakeRequestLine(Feed(p, x), line) == FeedStep(TakeRequestLine(p, line), x)
  {
    hide MatchRequestLine;
  }

  lemma TakeChunkSizeExtends(p: Parser, line: bytes, x: bytes)
    ensures TakeChunkSize(Feed(p, x), line) == FeedStep(TakeChunkSize(p, line), x)
  {
  }

  /** The only step whose event grows with the buffer: body bytes still owed after
      everything buffered was handed out. */
  predicate TakesAll(p: Parser) {
    (p.phase == BodyLength && p.remaining > |p.buffer|) || (p.phase == ChunkBody && p.chunkRemaining > |p.buffer|)
  }

  lemma DropBlankLineExtends(p: Parser, x: bytes)
    requires p.limits.maxRequestLine >= 1 && !p.eof && !StepRequestLine(p).Wait?
    ensures DropBlankLine(Feed(p, x)) == Feed(DropBlankLine(p), x)
  {
    if |p.buffer| >= 2 {
      assert (p.buffer + x)[2..] == p.buffer[2..] + x;
    } else if !p.started {
      // one byte that is not a wait is a bare LF
      assert ReadLine(p.buffer, p.limits.maxRequestLine, RequestLineTooLong) != NoLine;
      assert p.buffer[0] == LF && (p.buffer + x)[0] == LF;
      assert !(CRLF <= p.buffer + x);
    }
  }

  lemma RequestLineExtends(p: Parser, x: bytes)
    requires p.limits.maxRequestLine >= 1 && !p.eof && !StepRequestLine(p).Wait?
    ensures StepRequestLine(Feed(p, x)) == FeedStep(StepRequestLine(p), x)
  {
    var q := DropBlankLine(p);
    DropBlankLineExtends(p, x);
    ReadLineExtends(q.buffer, x, p.limits.maxRequestLine, RequestLineTooLong);
    match ReadLine(q.buffer, p.limits.maxRequestLine, RequestLineTooLong)
    case Line(line, rest) => TakeRequestLineExtends(q.(buffer := rest, started := true), line, x);
    case BadLine(_, _) =>
    case NoLine =>
  }

  lemma HeadersExtends(p: Parser, x: bytes)
    requires !p.eof && !StepHeaders(p).Wait?
    ensures StepHeaders(Feed(p, x)) == FeedStep(StepHeaders(p), x)
  {
    hide TakeHeaderLine, ReadLine;
    var room := p.limits.maxHeadersSize - p.headersSize;
    ReadLineExtends(p.buffer, x, room, HeadersTooLarge);
    match ReadLine(p.buffer, room, HeadersTooLarge)
    case Line(line, rest) =>
      TakeHeaderLineExtends(p.(buffer := rest, headersSize := p.headersSize + |line| + 2), line, x);
    case BadLine(_, _) =>
    case NoLine =>
  }

  lemma BodyExtends(p: Parser, x: bytes)
    requires p.phase == BodyLength || p.phase == ChunkBody
    requires !p.eof && !TakesAll(p) && !StepOf(p).Wait?
    ensures StepOf(Feed(p, x)) == FeedStep(StepOf(p), x)
  {
    var owed := if p.phase == BodyLength then p.remaining else p.chunkRemaining;
    assert (p.buffer + x)[owed..] == p.buffer[owed..] + x;
    assert (p.buffer + x)[..owed] == p.buffer[..owed];
  }

  lemma ChunkLinesExtend(p: Parser, x: bytes)
    requires p.phase == ChunkSize || p.phase == ChunkCrlf || p.phase == Trailers
    requires !p.eof && !StepOf(p).Wait?
    ensures StepOf(Feed(p, x)) == FeedStep(StepOf(p), x)
  {
    hide TakeChunkSize, ReadLine;
    match p.phase
    case ChunkSize =>
      ReadLineExtends(p.buffer, x, p.limits.maxChunkLine, ChunkLineTooLong);
      var r := ReadLine(p.buffer, p.limits.maxChunkLine, ChunkLineTooLong);
      if r.Line? { TakeChunkSizeExtends(p.(buffer := r.rest), r.line, x); }
    case ChunkCrlf => ReadLineExtends(p.buffer, x, 2, ChunkNotTerminated);
    case Trailers => ReadLineExtends(p.buffer, x, p.limits.maxHeadersSize - p.headersSize, HeadersTooLarge);
  }

  /** More bytes behind the buffer change no step that did not wait for them. */
  lemma StepExtends(p: Parser, x: bytes)
    requires p.limits.maxRequestLine >= 1 && !p.eof
    requires !StepOf(p).Wait? && !TakesAll(p)
    ensures StepOf(Feed(p, x)) == FeedStep(StepOf(p), x)
  {
    match p.phase
    case RequestLine => RequestLineExtends(p, x);
    case Headers => HeadersExtends(p, x);
    case BodyLength => BodyExtends(p, x);
    case ChunkBody => BodyExtends(p, x);
    case _ => ChunkLinesExtend(p, x);
  }

  // -- events with adjacent body pieces joined --------------------------------------

  /** The event with its body bytes one by one. */
  function Bytewise(e: Event): seq<Event> {
    if e.BodyData? then seq(|e.data|, i requires 0 <= i < |e.data| => BodyData([e.data[i]])) else [e]
  }

  function Trace(events: seq<Event>): seq<Event> {
    if events == [] then [] else Bytewise(events[0]) + Trace(events[1..])
  }

  lemma TraceConcat(a: seq<Event>, b: seq<Event>)
    ensures Trace(a + b) == Trace(a) + Trace(b)
  {
    if a == [] {
      assert a + b == b;
    } else {
      assert (a + b)[1..] == a[1..] + b;
      TraceConcat(a[1..], b);
    }
  }

  lemma TraceCons(e: Event, rest: seq<Event>)
    ensures Trace([e] + rest) == Bytewise(e) + Trace(rest)
  {
    assert ([e] + rest)[1..] == rest;
  }

  /** The same events with every run of adjacent `BodyData` joined into one. */
  function Join(events: seq<Event>): seq<Event> {
    if events == [] then []
    else
      var rest := Join(events[1..]);
      if events[0].BodyData? && rest != [] && rest[0].BodyData?
      then [BodyData(events[0].data + rest[0].data)] + rest[1..]
      else [events[0]] + rest
  }

  predicate NoEmptyBody(events: seq<Event>) {
    forall i :: 0 <= i < |events| ==> events[i].BodyData? ==> events[i].data != []
  }

  lemma {:induction false} JoinBytewise(data: bytes, rest: seq<Event>)
    requires data != []
    ensures Join(Bytewise(BodyData(data)) + rest) == Join([BodyData(data)] + rest)
    decreases |data|
  {
    var pieces := Bytewise(BodyData(data));
    assert ([BodyData(data)] + rest)[1..] == rest;
    if |data| == 1 {
      assert data == [data[0]];
      assert pieces == [BodyData(data)];
    } else {
      var tail := Bytewise(BodyData(data[1..]));
      assert pieces == [BodyData([data[0]])] + tail;
      assert (pieces + rest)[1..] == tail + rest;
      JoinBytewise(data[1..], rest);
      assert ([BodyData(data[1..])] + rest)[1..] == rest;
      assert data == [data[0]] + data[1..];
      var joined := Join(rest);
      if joined != [] && joined[0].BodyData? {
        assert [data[0]] + (data[1..] + joined[0].data) == data + joined[0].data;
      }
    }
  }

  lemma {:induction false} JoinTrace(events: seq<Event>)
    requires NoEmptyBody(events)
    ensures Join(Trace(events)) == Join(events)
  {
    if events != [] {
      var e, rest := events[0], events[1..];
      JoinTrace(rest);
      assert events == [e] + rest;
      if e.BodyData? {
        JoinBytewise(e.data, Trace(rest));
        assert ([e] + Trace(rest))[1..] == Trace(rest);
      } else {
        assert ([e] + Trace(rest))[1..] == Trace(rest);
      }
    }
  }

  // -- draining in two goes ----------------------------------------------------

  /** No message of the stream is preceded by more than one empty line: at every
      point where a request line is due, the bytes left are not CRLF CRLF. */
  predicate Separated(p: Parser, serial: bool)
    decreases |p.buffer|, Rank(p.phase)
  {
    !(AtStart(p) && CRLF + CRLF <= p.buffer) &&
    if p.error.Some? then true
    else if p.phase == Complete then !serial || Separated(StartNext(p), serial)
    else
      match StepOf(p)
      case Again(next) => Separated(next, serial)
      case Emit(_, next) => Separated(next, serial)
      case Wait(_) => true
      case Raise(_) => true
  }

  ghost predicate Sane(p: Parser) {
    p.limits.maxRequestLine >= 1 && !p.eof && (p.phase == Failed <==> p.error.Some?)
  }

  lemma StepKeepsSane(p: Parser)
    requires Sane(p)
    ensures Sane(StepOf(p).next)
  {
    assert Keeps(p, StepOf(p));
  }

  /** Draining what has arrived and then the rest is draining everything at once; the
      first drain may stop at the end of a message (`early` false) where the others go on. */
  ghost predicate TwoGoes(p: Parser, x: bytes, early: bool, serial: bool) {
    var whole, first := Drain(Feed(p, x), serial), Drain(p, early);
    var second := Drain(Feed(first.next, x), serial);
    && Trace(whole.events) == Trace(first.events) + Trace(second.events)
    && whole.next == second.next
    && Separated(Feed(first.next, x), serial)
    && Sane(first.next)
  }

  lemma FeedNothing(p: Parser)
    ensures Feed(p, []) == p
  {
  }

  /** A wait changes nothing, except for dropping the blank line before a request line. */
  lemma WaitDrops(p: Parser)
    requires Sane(p) && StepOf(p).Wait?
    ensures StepOf(p).next == if p.phase == RequestLine then DropBlankLine(p) else p
  {
  }

  lemma DroppedOnce(p: Parser, x: bytes)
    requires Sane(p) && AtStart(p) && CRLF <= p.buffer && !(CRLF + CRLF <= p.buffer + x)
    ensures var q := Feed(DropBlankLine(p), x);
            AtStart(q) && !(CRLF + CRLF <= q.buffer) && StepOf(Feed(p, x)) == StepOf(q)
  {
    hide TakeRequestLine, ReadLine, StepHeaders, StepBodyLength, StepChunkSize, StepChunkBody, StepChunkCrlf, StepTrailers;
    var q, all := Feed(DropBlankLine(p), x), Feed(p, x);
    assert all.buffer == CRLF + q.buffer;
    assert all.buffer[2..] == q.buffer;
    assert DropBlankLine(all) == q == DropBlankLine(q);
  }

  lemma SameStep(a: Parser, b: Parser, serial: bool)
    requires a.error.None? && b.error.None? && a.phase != Complete && b.phase != Complete
    requires StepOf(a) == StepOf(b)
    ensures Drain(a, serial) == Drain(b, serial)
    ensures Separated(a, serial) && !(AtStart(b) && CRLF + CRLF <= b.buffer) ==> Separated(b, serial)
  {
    hide StepOf, AtStart;
  }

  lemma WaitTwoGoes(p: Parser, x: bytes, early: bool, serial: bool)
    requires Sane(p) && p.error.None? && p.phase != Complete && StepOf(p).Wait?
    requires Separated(Feed(p, x), serial)
    ensures TwoGoes(p, x, early, serial)
  {
    WaitDrops(p);
    StepKeepsSane(p);
    var next := StepOf(p).next;
    if AtStart(p) && CRLF <= p.buffer {
      DroppedOnce(p, x);
      SameStep(Feed(p, x), Feed(next, x), serial);
    }
    WaitDrainsNothing(p, early);
    assert Trace([]) == [];
    assert Trace([]) + Trace(Drain(Feed(next, x), serial).events) == Trace(Drain(Feed(next, x), serial).events);
    hide StepOf, DropBlankLine, Separated, Drain, AtStart, Trace;
  }

  lemma WaitDrainsNothing(p: Parser, serial: bool)
    requires p.error.None? && p.phase != Complete && StepOf(p).Wait?
    ensures Drain(p, serial) == Drained([], StepOf(p).next)
  {
    hide StepOf;
  }

  lemma BytewiseConcat(a: bytes, b: bytes)
    ensures Bytewise(BodyData(a + b)) == Bytewise(BodyData(a)) + Bytewise(BodyData(b))
  {
  }

  function Owed(p: Parser): nat { if p.phase == BodyLength then p.remaining else p.chunkRemaining }

  function WithOwed(p: Parser, owed: nat): Parser {
    if p.phase == BodyLength then p.(remaining := owed) else p.(chunkRemaining := owed)
  }

  /** Both body phases hand out what is buffered, up to what is owed. */
  lemma BodyStepIs(p: Parser)
    requires (p.phase == BodyLength || p.phase == ChunkBody) && Owed(p) > 0 && !p.eof
    ensures p.buffer == [] ==> StepOf(p) == Wait(p)
    ensures p.buffer != [] ==>
              var take := Min(|p.buffer|, Owed(p));
              StepOf(p) == Emit(BodyData(p.buffer[..take]), WithOwed(p.(buffer := p.buffer[take..]), Owed(p) - take))
  {
  }

  lemma TakesAllThenWaits(p: Parser)
    requires TakesAll(p) && p.buffer != [] && !p.eof
    ensures var next := WithOwed(p.(buffer := []), Owed(p) - |p.buffer|);
            StepOf(p) == Emit(BodyData(p.buffer), next) && StepOf(next) == Wait(next)
  {
    hide StepOf;
    BodyStepIs(p);
    assert p.buffer[..|p.buffer|] == p.buffer && p.buffer[|p.buffer|..] == [];
    BodyStepIs(WithOwed(p.(buffer := []), Owed(p) - |p.buffer|));
  }

  lemma TakeSplit(a: bytes, x: bytes, n: nat)
    requires n <= |x|
    ensures (a + x)[..|a| + n] == a + x[..n] && (a + x)[|a| + n..] == x[n..]
  {
  }

  /** Both steps hand out body bytes and end alike, `whole` with `front` ahead. */
  predicate SameWithFront(whole: Step, later: Step, front: bytes) {
    && whole.Emit? && later.Emit? && whole.next == later.next
    && later.event.BodyData? && whole.event == BodyData(front + later.event.data)
  }

  /** Body bytes handed out in two pieces are the bytes of one piece. */
  lemma TakenInTwo(p: Parser, x: bytes)
    requires TakesAll(p) && p.buffer != [] && x != [] && !p.eof
    ensures var next := WithOwed(p.(buffer := []), Owed(p) - |p.buffer|);
            SameWithFront(StepOf(Feed(p, x)), StepOf(Feed(next, x)), p.buffer)
  {
    hide StepOf, Owed, WithOwed;
    var n := |p.buffer|;
    OwesMore(p);
    var q := WithOwed(p.(buffer := []), Owed(p) - n).(buffer := x);
    var take := Min(|x|, Owed(p) - n);
    OwedInTwo(p, x, n, take);
    TakeSplit(p.buffer, x, take);
    BodyStepIs(q);
    BodyStepIs(Feed(p, x));
    assert Min(|p.buffer + x|, Owed(p)) == n + take;
    assert [] + x == x;
  }

  lemma OwesMore(p: Parser)
    requires TakesAll(p)
    ensures Owed(p) > |p.buffer| && (p.phase == BodyLength || p.phase == ChunkBody)
  {
  }

  lemma OwedInTwo(p: Parser, x: bytes, a: nat, b: nat)
    requires (p.phase == BodyLength || p.phase == ChunkBody) && a + b <= Owed(p)
    requires b <= |x|
    ensures WithOwed(p.(buffer := []), Owed(p) - a).buffer == []
    ensures var next := WithOwed(p.(buffer := []), Owed(p) - a).(buffer := x);
            && Owed(next) == Owed(p) - a && Owed(Feed(p, x)) == Owed(p) && next.phase == p.phase && next.eof == p.eof
            && WithOwed(next.(buffer := x[b..]), Owed(next) - b) == WithOwed(Feed(p, x).(buffer := x[b..]), Owed(p) - (a + b))
  {
  }

  lemma BodyThenNothing(p: Parser, early: bool, serial: bool)
    requires Sane(p) && p.error.None? && TakesAll(p) && p.buffer != [] && Separated(p, serial)
    ensures TwoGoes(p, [], early, serial)
  {
    TakesAllThenWaits(p);
    StepKeepsSane(p);
    FeedNothing(p);
    FeedNothing(StepOf(p).next);
    hide StepOf;
    var next := StepOf(p).next;
    assert Drain(next, serial) == Drained([], next) && Drain(next, early) == Drained([], next);
    assert Drain(p, serial).events == [BodyData(p.buffer)] && Drain(p, early).events == [BodyData(p.buffer)];
  }

  lemma EmitDrain(p: Parser, serial: bool)
    requires p.error.None? && p.phase != Complete && StepOf(p).Emit?
    ensures var s := StepOf(p); var rest := Drain(s.next, serial);
            && Drain(p, serial) == Drained([s.event] + rest.events, rest.next)
            && Trace(Drain(p, serial).events) == Bytewise(s.event) + Trace(rest.events)
            && (Separated(p, serial) ==> Separated(s.next, serial))
            && (Separated(s.next, serial) && p.phase != RequestLine ==> Separated(p, serial))
  {
    hide StepOf;
    TraceCons(StepOf(p).event, Drain(StepOf(p).next, serial).events);
  }

  lemma WaitDrain(p: Parser, serial: bool)
    requires p.error.None? && p.phase != Complete && StepOf(p) == Wait(p)
    ensures Drain(p, serial) == Drained([], p)
  {
    hide StepOf;
  }

  lemma BodyThenMore(p: Parser, x: bytes, early: bool, serial: bool)
    requires Sane(p) && p.error.None? && TakesAll(p) && p.buffer != [] && x != []
    requires Separated(Feed(p, x), serial)
    ensures TwoGoes(p, x, early, serial)
  {
    hide StepOf, Drain, Separated, Bytewise, AtStart;
    TakesAllThenWaits(p);
    TakenInTwo(p, x);
    StepKeepsSane(p);
    var next := StepOf(p).next;
    WaitDrain(next, early);
    EmitDrain(p, early);
    EmitDrain(Feed(p, x), serial);
    EmitDrain(Feed(next, x), serial);
    BytewiseConcat(p.buffer, StepOf(Feed(next, x)).event.data);
  }

  lemma StoppedTwoGoes(p: Parser, x: bytes, early: bool, serial: bool)
    requires Sane(p) && (p.error.Some? || (p.phase == Complete && !early)) && Separated(Feed(p, x), serial)
    ensures TwoGoes(p, x, early, serial)
  {
  }

  lemma NextMessageTwoGoes(p: Parser, x: bytes, early: bool, serial: bool)
    requires Sane(p) && p.error.None? && p.phase == Complete && early && serial
    requires TwoGoes(StartNext(p), x, early, serial)
    ensures TwoGoes(p, x, early, serial)
  {
    hide Sane, Separated;
    assert StartNext(Feed(p, x)) == Feed(StartNext(p), x);
  }

  lemma StepTwoGoes(p: Parser, x: bytes, early: bool, serial: bool)
    requires Sane(p) && p.error.None? && p.phase != Complete && !StepOf(p).Wait?
    requires StepOf(Feed(p, x)) == FeedStep(StepOf(p), x)
    requires if StepOf(p).Raise? then Sane(StepOf(p).next) && StepOf(p).next.error.Some? else TwoGoes(StepOf(p).next, x, early, serial)
    ensures TwoGoes(p, x, early, serial)
  {
    hide StepOf, Sane, Bytewise;
    if StepOf(p).Emit? {
      EmitDrain(p, early);
      EmitDrain(Feed(p, x), serial);
    } else if StepOf(p).Raise? {
      assert !AtStart(Feed(StepOf(p).next, x));
    } else {
      hide Separated;
    }
  }

  lemma {:induction false} DrainTwoGoes(p: Parser, x: bytes, early: bool, serial: bool)
    requires Sane(p) && Separated(Feed(p, x), serial) && (early ==> serial)
    ensures TwoGoes(p, x, early, serial)
    decreases |p.buffer|, Rank(p.phase)
  {
    hide StepOf, TwoGoes;
    if p.error.Some? || (p.phase == Complete && !early) {
      StoppedTwoGoes(p, x, early, serial);
    } else if p.phase == Complete {
      DrainTwoGoes(StartNext(p), x, early, serial);
      NextMessageTwoGoes(p, x, early, serial);
    } else if StepOf(p).Wait? {
      WaitTwoGoes(p, x, early, serial);
    } else if TakesAll(p) && p.buffer != [] {
      if x == [] {
        FeedNothing(p);
        BodyThenNothing(p, early, serial);
      } else {
        BodyThenMore(p, x, early, serial);
      }
    } else {
      StepKeepsSane(p);
      if TakesAll(p) { BodyStepIs(p); }
      StepExtends(p, x);
      if !StepOf(p).Raise? {
        DrainTwoGoes(StepOf(p).next, x, early, serial);
      }
      StepTwoGoes(p, x, early, serial);
    }
  }

  // -- any number of pieces -------------------------------------------------------

  /** Feed the pieces one after the other, draining after each. */
  function DrainPieces(p: Parser, pieces: seq<bytes>, serial: bool): Drained
    decreases |pieces|
  {
    if pieces == [] then Drained([], p)
    else
      var first := Drain(Feed(p, pieces[0]), serial);
      var rest := DrainPieces(first.next, pieces[1..], serial);
      Drained(first.events + rest.events, rest.next)
  }

  /** Nothing happens until more bytes arrive. */
  predicate Quiet(p: Parser, serial: bool) {
    Trace(Drain(p, serial).events) == [] && Drain(p, serial).next == p
  }

  lemma FeedTwice(p: Parser, a: bytes, b: bytes)
    ensures Feed(Feed(p, a), b) == Feed(p, a + b)
  {
    assert p.buffer + a + b == p.buffer + (a + b);
  }

  lemma {:induction false} SeparatedPrefix(p: Parser, x: bytes, serial: bool)
    requires Sane(p) && Separated(Feed(p, x), serial)
    ensures Separated(p, serial)
    decreases |p.buffer|, Rank(p.phase)
  {
    assert AtStart(p) && CRLF + CRLF <= p.buffer ==> CRLF + CRLF <= p.buffer + x;
    if p.error.Some? {
    } else if p.phase == Complete {
      if serial { SeparatedPrefix(StartNext(p), x, serial); }
    } else if !StepOf(p).Wait? {
      StepKeepsSane(p);
      if TakesAll(p) {
        TakesAllThenWaits(p);
      } else {
        StepExtends(p, x);
      }
      hide StepOf;
      match StepOf(p)
      case Again(next) => if !TakesAll(p) { SeparatedPrefix(next, x, serial); }
      case Emit(_, next) => if !TakesAll(p) { SeparatedPrefix(next, x, serial); }
      case _ =>
    }
  }

  lemma {:induction false} PiecesAsOne(p: Parser, pieces: seq<bytes>, serial: bool)
    requires Sane(p) && Quiet(p, serial) && Separated(Feed(p, Concat(pieces)), serial)
    ensures var cut, whole := DrainPieces(p, pieces, serial), Drain(Feed(p, Concat(pieces)), serial);
            Trace(cut.events) == Trace(whole.events) && cut.next == whole.next
    decreases |pieces|
  {
    hide StepOf, Drain, Separated;
    if pieces == [] {
      FeedNothing(p);
    } else {
      var fed, rest := Feed(p, pieces[0]), Concat(pieces[1..]);
      FeedTwice(p, pieces[0], rest);
      DrainTwoGoes(fed, rest, serial, serial);
      SeparatedPrefix(fed, rest, serial);
      FeedNothing(fed);
      DrainTwoGoes(fed, [], serial, serial);
      var first := Drain(fed, serial);
      FeedNothing(first.next);
      PiecesAsOne(first.next, pieces[1..], serial);
      TraceConcat(first.events, DrainPieces(first.next, pieces[1..], serial).events);
    }
  }

  lemma {:induction false} DrainHasNoEmptyBody(p: Parser, serial: bool)
    ensures NoEmptyBody(Drain(p, serial).events)
    decreases |p.buffer|, Rank(p.phase)
  {
    if p.error.None? {
      if p.phase == Complete {
        if serial { DrainHasNoEmptyBody(StartNext(p), serial); }
      } else {
        assert Keeps(p, StepOf(p));
        hide StepOf;
        match StepOf(p)
        case Again(next) => DrainHasNoEmptyBody(next, serial);
        case Emit(_, next) => DrainHasNoEmptyBody(next, serial);
        case _ =>
      }
    }
  }

  lemma {:induction false} PiecesHaveNoEmptyBody(p: Parser, pieces: seq<bytes>, serial: bool)
    ensures NoEmptyBody(DrainPieces(p, pieces, serial).events)
    decreases |pieces|
  {
    if pieces != [] {
      var fed := Feed(p, pieces[0]);
      DrainHasNoEmptyBody(fed, serial);
      PiecesHaveNoEmptyBody(Drain(fed, serial).next, pieces[1..], serial);
    }
  }

  ghost predicate Agree(a: Drained, b: Drained) { Join(a.events) == Join(b.events) && a.next == b.next }

  lemma FreshIsQuiet(limits: Limits, serial: bool)
    ensures Quiet(Fresh(limits), serial)
  {
    hide ReadLine;
    var p := Fresh(limits);
    assert DropBlankLine(p) == p;
    assert StepOf(p) == Wait(p);
  }

  /** Two ways of cutting the same stream give the same events, once adjacent body
      pieces are joined, and leave the same parser behind, error included. */
  lemma SplitIndependence(limits: Limits, cut: seq<bytes>, other: seq<bytes>, serial: bool)
    requires limits.maxRequestLine >= 1 && Concat(cut) == Concat(other)
    requires Separated(Feed(Fresh(limits), Concat(cut)), serial)
    ensures Agree(DrainPieces(Fresh(limits), cut, serial), DrainPieces(Fresh(limits), other, serial))
  {
    hide Separated, Drain;
    var p := Fresh(limits);
    FreshIsQuiet(limits, serial);
    forall pieces | Concat(pieces) == Concat(cut)
      ensures Join(DrainPieces(p, pieces, serial).events) == Join(Trace(Drain(Feed(p, Concat(cut)), serial).events))
      ensures DrainPieces(p, pieces, serial).next == Drain(Feed(p, Concat(cut)), serial).next
    {
      PiecesAsOne(p, pieces, serial);
      PiecesHaveNoEmptyBody(p, pieces, serial);
      JoinTrace(DrainPieces(p, pieces, serial).events);
    }
  }
}
