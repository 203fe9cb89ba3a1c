/** What the applications of one connection are given: whatever the cuts of the stream,
    the timing of the responses and the pauses, the exchanges are the messages that one
    reader of the whole stream finds, in the same order and with the same bodies. */
module ConnectionRequests {
  import opened Bytes
  import opened ParserSpec
  import opened ParserSplit
  import opened ExchangeSpec
  import opened ExchangeResults
  import opened ConnectionSpec
  import opened ConnectionSafety

  // -- the messages of a sequence of events ----------------------------------------

  datatype Message = Message(head: RequestHead, body: bytes, whole: bool)

  function AddEvent(ms: seq<Message>, e: Event): seq<Message> {
    match e
    case Head(head) => ms + [Message(head, [], false)]
    case BodyData(data) =>
      if ms == [] then ms else ms[|ms| - 1 := ms[|ms| - 1].(body := ms[|ms| - 1].body + data)]
    case EndOfMessage => if ms == [] then ms else ms[|ms| - 1 := ms[|ms| - 1].(whole := true)]
  }

  function Collect(ms: seq<Message>, events: seq<Event>): seq<Message>
    decreases |events|
  {
    if events == [] then ms else Collect(AddEvent(ms, events[0]), events[1..])
  }

  function Messages(events: seq<Event>): seq<Message> { Collect([], events) }

  lemma {:induction false} CollectConcat(ms: seq<Message>, a: seq<Event>, b: seq<Event>)
    ensures Collect(ms, a + b) == Collect(Collect(ms, a), b)
    decreases |a|
  {
    if a == [] {
      assert a + b == b;
    } else {
      assert (a + b)[1..] == a[1..] + b;
      CollectConcat(AddEvent(ms, a[0]), a[1..], b);
    }
  }

  lemma MessagesSnoc(events: seq<Event>, e: Event)
    ensures Messages(events + [e]) == AddEvent(Messages(events), e)
  {
    CollectConcat([], events, [e]);
    assert [e][1..] == [];
    assert Collect(AddEvent(Messages(events), e), []) == AddEvent(Messages(events), e);
  }

  lemma {:induction false} CollectBytes(ms: seq<Message>, data: bytes)
    ensures Collect(ms, Bytewise(BodyData(data))) == AddEvent(ms, BodyData(data))
    decreases |data|
  {
    var pieces := Bytewise(BodyData(data));
    if data == [] {
      if ms != [] { assert ms[|ms| - 1].body + [] == ms[|ms| - 1].body; }
    } else {
      var next := AddEvent(ms, BodyData([data[0]]));
      assert pieces[1..] == Bytewise(BodyData(data[1..]));
      CollectBytes(next, data[1..]);
      if ms != [] {
        assert ms[|ms| - 1].body + [data[0]] + data[1..] == ms[|ms| - 1].body + data by {
          assert data == [data[0]] + data[1..];
        }
      }
    }
  }

  /** Joining adjacent body pieces does not matter. */
  lemma {:induction false} CollectTrace(ms: seq<Message>, events: seq<Event>)
    ensures Collect(ms, Trace(events)) == Collect(ms, events)
    decreases |events|
  {
    if events != [] {
      var e := events[0];
      CollectConcat(ms, Bytewise(e), Trace(events[1..]));
      match e {
        case BodyData(data) => CollectBytes(ms, data);
        case _ =>
          assert [e][1..] == [];
          assert Collect(AddEvent(ms, e), []) == AddEvent(ms, e);
      }
      CollectTrace(AddEvent(ms, e), events[1..]);
    }
  }

  /** `b` is `a`, or a later reading of the same stream. */
  predicate Continues(a: Message, b: Message) { b.head == a.head && a.body <= b.body && (a.whole ==> b.whole) }

  predicate Prolongs(a: seq<Message>, b: seq<Message>) {
    && |a| <= |b| && (forall i :: 0 <= i < |a| ==> Continues(a[i], b[i]))
    && forall i :: 0 <= i < |a| - 1 ==> b[i] == a[i]
  }

  lemma {:induction false} CollectProlongs(ms: seq<Message>, events: seq<Event>)
    ensures Prolongs(ms, Collect(ms, events))
    ensures (events == [] || events[0].Head?) ==> forall i :: 0 <= i < |ms| ==> Collect(ms, events)[i] == ms[i]
    decreases |events|
  {
    if events != [] {
      var next := AddEvent(ms, events[0]);
      CollectProlongs(next, events[1..]);
      assert Prolongs(ms, next);
    }
  }

  // -- the exchanges are those messages --------------------------------------------------

  /** What an exchange has been given is part of its message, and all of it once the
      message is complete. */
  predicate Serves(x: Exchange, m: Message) {
    x.cycle.head == m.head && x.fed <= m.body && (x.cycle.bodyComplete ==> m.whole && x.fed == m.body)
  }

  predicate ServesAll(exchanges: seq<Exchange>, ms: seq<Message>) {
    |exchanges| <= |ms| && forall i :: 0 <= i < |exchanges| ==> Serves(exchanges[i], ms[i])
  }

  /** The parser, behind the messages `ms`, is inside the last of them exactly while it
      is not whole. */
  predicate Inside(p: Parser, ms: seq<Message>) {
    !HeadPhase(p.phase) && p.phase != Failed ==> ms != [] && (ms[|ms| - 1].whole <==> p.phase == Complete)
  }

  /** The exchange in progress has been given everything. */
  predicate UpToDate(c: Conn, ms: seq<Message>)
    requires Indexed(c)
  {
    c.current.Some? ==> c.current.value < |ms| && c.exchanges[c.current.value].fed == ms[c.current.value].body
  }

  predicate Matches(c: Conn, p: Parser)
    requires Indexed(c)
  {
    var ms := Messages(c.seen);
    && |ms| == |c.exchanges| + (if c.upgraded then 1 else 0)
    && ServesAll(c.exchanges, ms) && Inside(p, ms) && UpToDate(c, ms)
  }

  lemma HeadKeepsMatches(c: Conn, p: Parser, head: RequestHead, next: Parser)
    requires SoundFor(c, p) && Matches(c, p) && HeadPhase(p.phase)
    requires !HeadPhase(next.phase) && next.phase != Complete && next.phase != Failed
    ensures Indexed(OnEvent(c, Head(head))) && Matches(OnEvent(c, Head(head)), next)
  {
    hide WireSound, IsUpgrade, Messages;
    MessagesSnoc(c.seen, Head(head));
    assert c.current.None? && !c.upgraded;
  }

  lemma DataKeepsMatches(c: Conn, p: Parser, data: bytes, next: Parser)
    requires SoundFor(c, p) && Matches(c, p) && !HeadPhase(p.phase) && p.phase != Failed && p.phase != Complete
    requires !HeadPhase(next.phase) && next.phase != Complete && next.phase != Failed
    ensures Indexed(OnEvent(c, BodyData(data))) && Matches(OnEvent(c, BodyData(data)), next)
  {
    hide WireSound, Messages;
    MessagesSnoc(c.seen, BodyData(data));
    var d, ms, ns := OnEvent(c, BodyData(data)), Messages(c.seen), AddEvent(Messages(c.seen), BodyData(data));
    if c.current.Some? {
      assert d.exchanges[c.current.value].fed == c.exchanges[c.current.value].fed + data;
    }
    forall i | 0 <= i < |d.exchanges| ensures Serves(d.exchanges[i], ns[i]) {
      assert Serves(c.exchanges[i], ms[i]);
    }
  }

  lemma EndKeepsMatches(c: Conn, p: Parser, next: Parser)
    requires SoundFor(c, p) && Matches(c, p) && !HeadPhase(p.phase) && p.phase != Failed && p.phase != Complete
    requires next.phase == Complete
    ensures Indexed(OnEvent(c, EndOfMessage)) && Matches(OnEvent(c, EndOfMessage), next)
  {
    hide WireSound, Messages;
    MessagesSnoc(c.seen, EndOfMessage);
    var d, ms, ns := OnEvent(c, EndOfMessage), Messages(c.seen), AddEvent(Messages(c.seen), EndOfMessage);
    forall i | 0 <= i < |d.exchanges| ensures Serves(d.exchanges[i], ns[i]) {
      assert Serves(c.exchanges[i], ms[i]);
    }
  }

  lemma EventKeepsMatches(c: Conn, p: Parser, e: Event, next: Parser)
    requires SoundFor(c, p) && Matches(c, p) && p.error.None? && p.phase != Failed && p.phase != Complete
    requires StepOf(p) == Emit(e, next)
    ensures Matches(OnEvent(c, e), next)
  {
    EmitPhases(p);
    hide StepOf, SoundFor, Matches, OnEvent;
    match e
    case Head(head) => HeadKeepsMatches(c, p, head, next);
    case BodyData(data) => DataKeepsMatches(c, p, data, next);
    case EndOfMessage => EndKeepsMatches(c, p, next);
  }

  lemma QuietKeepsMatches(c: Conn, p: Parser, next: Parser)
    requires Indexed(c) && Matches(c, p) && p.error.None? && p.phase != Failed && p.phase != Complete
    requires StepOf(p) == Again(next) || StepOf(p) == Wait(next) || StepOf(p) == Raise(next)
    ensures Matches(c, next)
  {
    EmitPhases(p);
    hide StepOf, Messages, ServesAll, UpToDate;
  }

  lemma {:induction false} DrainKeepsMatches(c: Conn, p: Parser)
    requires SoundFor(c, p) && Unfinished(c) && Matches(c, p)
    ensures var d := Drain(p, false); var e := OnEvents(c, d.events); Matches(e, d.next)
    decreases |p.buffer|, Rank(p.phase)
  {
    if p.error.None? && p.phase != Complete {
      NotFailed(c, p);
      hide StepOf, SoundFor, OnEvent, Unfinished, Matches;
      match StepOf(p)
      case Again(next) =>
        PhaseChangeTracked(c, p, next);
        QuietKeepsMatches(c, p, next);
        DrainKeepsMatches(c, next);
      case Emit(e, next) =>
        EventKeepsSound(c, p, e, next);
        EventKeepsMatches(c, p, e, next);
        DrainKeepsMatches(OnEvent(c, e), next);
        assert ([e] + Drain(next, false).events)[1..] == Drain(next, false).events;
      case Wait(next) => QuietKeepsMatches(c, p, next);
      case Raise(next) => QuietKeepsMatches(c, p, next);
    }
  }

  // -- the stream so far -------------------------------------------------------------------

  function Serial(limits: Limits, stream: bytes): Drained { Drain(Feed(Fresh(limits), stream), true) }

  ghost predicate Readable(limits: Limits, stream: bytes) { Separated(Feed(Fresh(limits), stream), true) }

  /** The events seen, and what the parser makes of anything that may follow, are what
      one reader makes of the stream. */
  ghost predicate FaithfulWith(limits: Limits, received: bytes, seen: seq<Event>, p: Parser, x: bytes) {
    Readable(limits, received + x) ==>
      && Separated(Feed(p, x), true)
      && Trace(Serial(limits, received + x).events) == Trace(seen) + Trace(Drain(Feed(p, x), true).events)
  }

  function BeforeEof(p: Parser): Parser { p.(eof := false) }

  /** Behind the end of the stream nothing follows. */
  ghost predicate Faithful(limits: Limits, received: bytes, seen: seq<Event>, p: Parser) {
    && Sane(BeforeEof(p))
    && forall x :: (p.eof ==> x == []) ==> FaithfulWith(limits, received, seen, BeforeEof(p), x)
  }

  lemma FreshIsFaithful(limits: Limits)
    requires limits.maxRequestLine >= 1
    ensures Faithful(limits, [], [], Fresh(limits))
  {
    hide Separated, Drain;
    forall x ensures FaithfulWith(limits, [], [], Fresh(limits), x) {
      assert [] + x == x;
      assert Trace([]) + Trace(Serial(limits, x).events) == Trace(Serial(limits, x).events);
    }
  }

  lemma FedIsFaithful(limits: Limits, received: bytes, seen: seq<Event>, p: Parser, data: bytes)
    requires Faithful(limits, received, seen, p) && !p.eof
    ensures Faithful(limits, received + data, seen, Feed(p, data))
  {
    hide Separated, Drain, Trace, Serial;
    forall x ensures FaithfulWith(limits, received + data, seen, Feed(p, data), x) {
      assert received + data + x == received + (data + x);
      FeedTwice(p, data, x);
      assert FaithfulWith(limits, received, seen, BeforeEof(p), data + x);
    }
  }

  lemma NextIsFaithful(limits: Limits, received: bytes, seen: seq<Event>, p: Parser)
    requires Faithful(limits, received, seen, p) && p.phase == Complete && p.error.None?
    ensures Faithful(limits, received, seen, StartNext(p))
  {
    hide Trace, Serial;
    var q := BeforeEof(p);
    forall x | p.eof ==> x == [] ensures FaithfulWith(limits, received, seen, BeforeEof(StartNext(p)), x) {
      assert FaithfulWith(limits, received, seen, q, x);
      assert StartNext(Feed(q, x)) == Feed(BeforeEof(StartNext(p)), x);
    }
  }

  lemma EofIsFaithful(limits: Limits, received: bytes, seen: seq<Event>, p: Parser)
    requires Faithful(limits, received, seen, p)
    ensures Faithful(limits, received, seen, p.(eof := true))
  {
    hide Separated, Drain, Trace, Serial, Sane, FaithfulWith;
  }

  lemma DrainedWith(limits: Limits, received: bytes, seen: seq<Event>, p: Parser, x: bytes)
    requires Sane(p) && FaithfulWith(limits, received, seen, p, x)
    ensures FaithfulWith(limits, received, seen + Drain(p, false).events, Drain(p, false).next, x)
  {
    hide Separated, Drain, Serial, Readable, Sane;
    if Readable(limits, received + x) {
      DrainTwoGoes(p, x, false, true);
      TraceConcat(seen, Drain(p, false).events);
    }
  }

  // -- the end of the stream ------------------------------------------------------------------

  function AtEof(s: Step): Step {
    match s
    case Again(next) => Again(next.(eof := true))
    case Emit(e, next) => Emit(e, next.(eof := true))
    case Wait(next) => Wait(next.(eof := true))
    case Raise(next) => Raise(next.(eof := true))
  }

  /** The end of the stream turns some waits into errors and changes nothing else. */
  predicate OnlyWaitsChange(p: Parser) {
    var s, t := StepOf(p), StepOf(p.(eof := true));
    t == AtEof(s) || (s.Wait? && t.Raise?)
  }

  lemma EofOnRequestLine(p: Parser)
    requires !p.eof && p.phase == RequestLine
    ensures OnlyWaitsChange(p)
  {
    hide ReadLine, MatchRequestLine, StepHeaders;
  }

  lemma EofOnHeaders(p: Parser)
    requires !p.eof && p.phase == Headers
    ensures OnlyWaitsChange(p)
  {
    hide ReadLine, FramingOf, BuildHead, MatchHeaderLine, StepRequestLine;
  }

  lemma EofInChunks(p: Parser)
    requires !p.eof && (p.phase == ChunkSize || p.phase == ChunkCrlf || p.phase == Trailers)
    ensures OnlyWaitsChange(p)
  {
    hide ReadLine, MatchHeaderLine, MatchChunkSize, StepRequestLine, StepHeaders, StepBodyLength, StepChunkBody;
  }

  lemma EofInBody(p: Parser)
    requires !p.eof && (p.phase == BodyLength || p.phase == ChunkBody || p.phase == Complete || p.phase == Failed)
    ensures OnlyWaitsChange(p)
  {
    hide StepRequestLine, StepHeaders, StepChunkSize, StepChunkCrlf, StepTrailers;
  }

  lemma EofStep(p: Parser)
    requires !p.eof
    ensures OnlyWaitsChange(p)
  {
    hide OnlyWaitsChange;
    match p.phase
    case RequestLine => EofOnRequestLine(p);
    case Headers => EofOnHeaders(p);
    case ChunkSize => EofInChunks(p);
    case ChunkCrlf => EofInChunks(p);
    case Trailers => EofInChunks(p);
    case _ => EofInBody(p);
  }

  /** Draining at the end of the stream, against draining before it. */
  ghost predicate SameButForTheError(before: Drained, after: Drained) {
    && after.events == before.events && after.next.eof
    && (BeforeEof(after.next) == before.next ||
        (after.next.error.Some? && Trace(Drain(before.next, true).events) == []))
  }

  lemma WaitingSeesNothing(p: Parser)
    requires Sane(p) && Separated(p, true) && p.error.None? && p.phase != Complete && StepOf(p).Wait?
    ensures Trace(Drain(StepOf(p).next, true).events) == []
  {
    FeedNothing(p);
    FeedNothing(StepOf(p).next);
    WaitTwoGoes(p, [], false, true);
    hide StepOf, Sane, Separated;
    assert Drain(p, true).events == [];
  }

  lemma {:induction false} EofDrain(p: Parser)
    requires Sane(p) && Separated(p, true)
    ensures SameButForTheError(Drain(p, false), Drain(p.(eof := true), false))
    decreases |p.buffer|, Rank(p.phase)
  {
    if p.error.None? && p.phase != Complete {
      EofStep(p);
      StepKeepsSane(p);
      assert Keeps(p.(eof := true), StepOf(p.(eof := true)));
      if StepOf(p).Wait? { WaitingSeesNothing(p); }
      hide StepOf, Sane;
      match StepOf(p)
      case Again(next) => EofDrain(next);
      case Emit(_, next) => EofDrain(next);
      case _ =>
    }
  }

  lemma {:induction false} EofDrainKeepsSane(p: Parser)
    requires Sane(BeforeEof(p))
    ensures Sane(BeforeEof(Drain(p, false).next)) && Drain(p, false).next.eof == p.eof
    decreases |p.buffer|, Rank(p.phase)
  {
    if p.error.None? && p.phase != Complete {
      assert Keeps(p, StepOf(p));
      hide StepOf;
      match StepOf(p)
      case Again(next) => EofDrainKeepsSane(next);
      case Emit(_, next) => EofDrainKeepsSane(next);
      case _ =>
    }
  }

  lemma EofDrainIsFaithful(limits: Limits, received: bytes, seen: seq<Event>, p: Parser)
    requires Faithful(limits, received, seen, p) && p.eof
    ensures var d := Drain(p, false); FaithfulWith(limits, received, seen + d.events, BeforeEof(d.next), [])
  {
    hide Drain, Separated, Serial, Readable, Sane;
    var q := BeforeEof(p);
    assert FaithfulWith(limits, received, seen, q, []);
    if Readable(limits, received + []) {
      FeedNothing(q);
      EofDrain(q);
      DrainedWith(limits, received, seen, q, []);
      assert q.(eof := true) == p;
      var d, e := Drain(q, false), Drain(p, false);
      FeedNothing(d.next);
      FeedNothing(BeforeEof(e.next));
      if BeforeEof(e.next) != d.next {
        FailedSeesNothing(BeforeEof(e.next));
      }
    }
  }

  lemma FailedSeesNothing(p: Parser)
    requires p.error.Some?
    ensures Drain(p, true).events == [] && Separated(p, true)
  {
  }

  lemma DrainedIsFaithful(limits: Limits, received: bytes, seen: seq<Event>, p: Parser)
    requires Faithful(limits, received, seen, p)
    ensures var d := Drain(p, false); Faithful(limits, received, seen + d.events, d.next)
  {
    hide Drain, FaithfulWith, Sane;
    EofDrainKeepsSane(p);
    var d := Drain(p, false);
    if p.eof {
      EofDrainIsFaithful(limits, received, seen, p);
    } else {
      assert BeforeEof(p) == p && BeforeEof(d.next) == d.next;
      forall x ensures FaithfulWith(limits, received, seen + d.events, d.next, x) {
        DrainedWith(limits, received, seen, p, x);
      }
    }
  }


  // -- exchanges have lived as exchanges do ---------------------------------------------------

  /** The exchange is the outcome of a run of its own, so everything proved of runs of
      one exchange holds of it. */
  ghost predicate Lived(x: Exchange) {
    exists head: RequestHead, actions: seq<Action> :: Reachable(NewExchange(head), actions, x)
  }

  lemma {:induction false} ReachableSnoc(start: Exchange, actions: seq<Action>, x: Exchange, a: Action)
    requires Reachable(start, actions, x) && Enabled(x, a)
    ensures Reachable(start, actions + [a], Act(x, a))
    decreases |actions|
  {
    hide Act, Enabled;
    if actions == [] {
      assert [a][1..] == [];
      assert Reachable(Act(x, a), [], Act(x, a));
    } else {
      assert (actions + [a])[1..] == actions[1..] + [a];
      ReachableSnoc(Act(start, actions[0]), actions[1..], x, a);
    }
  }

  lemma ActKeepsLived(x: Exchange, a: Action)
    requires Lived(x) && Enabled(x, a)
    ensures Lived(Act(x, a))
  {
    hide Act, Reachable, Enabled;
    var head: RequestHead, actions: seq<Action> :| Reachable(NewExchange(head), actions, x);
    ReachableSnoc(NewExchange(head), actions, x, a);
  }

  ghost predicate AllLived(exchanges: seq<Exchange>) { forall i :: 0 <= i < |exchanges| ==> Lived(exchanges[i]) }

  lemma StepKeepsLived(c: Conn, i: nat, a: Action)
    requires AllLived(c.exchanges) && i < |c.exchanges|
    ensures AllLived(StepExchange(c, i, a).exchanges)
  {
    hide Act, Enabled, Lived;
    if Enabled(c.exchanges[i], a) { ActKeepsLived(c.exchanges[i], a); }
  }

  lemma NewHasLived(head: RequestHead)
    ensures Lived(NewExchange(head))
  {
    assert Reachable(NewExchange(head), [], NewExchange(head));
  }

  lemma EventKeepsLived(c: Conn, e: Event)
    requires Indexed(c) && AllLived(c.exchanges)
    ensures AllLived(OnEvent(c, e).exchanges)
  {
    hide Lived, StepExchange, IsUpgrade;
    var d := c.(seen := c.seen + [e]);
    match e
    case Head(head) => NewHasLived(head);
    case BodyData(data) => if c.current.Some? { StepKeepsLived(d, c.current.value, FeedBody(data)); }
    case EndOfMessage => if c.current.Some? { StepKeepsLived(d, c.current.value, FeedEom); }
  }

  lemma {:induction false} EventsKeepLived(c: Conn, events: seq<Event>)
    requires Indexed(c) && AllLived(c.exchanges)
    ensures var d := OnEvents(c, events);
            && AllLived(d.exchanges) && d.seen == c.seen + events && d.received == c.received && d.parser == c.parser
    decreases |events|
  {
    if events == [] {
      assert c.seen + [] == c.seen;
    } else {
      EventOnlyFeeds(c, events[0]);
      hide AllLived, OnEvent;
      EventKeepsLived(c, events[0]);
      EventsKeepLived(OnEvent(c, events[0]), events[1..]);
      assert c.seen + [events[0]] + events[1..] == c.seen + events by { assert events == [events[0]] + events[1..]; }
    }
  }

  // -- over every run ------------------------------------------------------------------------

  ghost predicate Matched(c: Conn) {
    Indexed(c) && Matches(c, c.parser) && Faithful(c.cfg.limits, c.received, c.seen, c.parser) && AllLived(c.exchanges)
  }

  /** A step that does not parse. */
  ghost predicate Progress(c: Conn, d: Conn) {
    && Indexed(c) && Indexed(d) && d.cfg == c.cfg && d.parser == c.parser && d.upgraded == c.upgraded
    && d.received == c.received && d.seen == c.seen && (d.current == c.current || d.current.None?)
    && |d.exchanges| == |c.exchanges|
    && (forall i :: 0 <= i < |c.exchanges| ==> SameStory(c.exchanges[i], d.exchanges[i]))
    && (AllLived(c.exchanges) ==> AllLived(d.exchanges))
  }

  /** The request side of the exchange is the same. */
  predicate SameStory(x: Exchange, y: Exchange) {
    y.cycle.head == x.cycle.head && y.fed == x.fed && y.cycle.bodyComplete == x.cycle.bodyComplete
  }

  lemma ProgressKeepsMatched(c: Conn, d: Conn)
    requires Matched(c) && Progress(c, d)
    ensures Matched(d)
  {
    hide AllLived, Messages, Faithful, Inside;
    var ms := Messages(c.seen);
    forall i | 0 <= i < |d.exchanges| ensures Serves(d.exchanges[i], ms[i]) {
      assert SameStory(c.exchanges[i], d.exchanges[i]) && Serves(c.exchanges[i], ms[i]);
    }
  }

  lemma ActKeepsStory(x: Exchange, a: Action)
    requires Enabled(x, a) && FromApplication(a)
    ensures SameStory(x, Act(x, a))
  {
    ActKeepsHead(x, a);
    ActKeepsRequest(x, a);
    match a
    case CallSend(_, _) => hide Poll, SendBody;
    case _ => hide Send;
  }

  lemma StepProgresses(c: Conn, i: nat, a: Action, outputs: seq<Output>)
    requires Indexed(c) && i < |c.exchanges| && FromApplication(a)
    ensures Progress(c, StepExchange(c, i, a)) && Progress(c, Put(StepExchange(c, i, a), i, outputs))
  {
    hide Act, Enabled, AllLived, FromApplication, SameStory;
    StepKeepsStories(c, i, a);
    if AllLived(c.exchanges) { StepKeepsLived(c, i, a); }
  }

  lemma StepKeepsStories(c: Conn, i: nat, a: Action)
    requires i < |c.exchanges| && FromApplication(a)
    ensures var d := StepExchange(c, i, a);
            |d.exchanges| == |c.exchanges| && forall k :: 0 <= k < |c.exchanges| ==> SameStory(c.exchanges[k], d.exchanges[k])
  {
    hide Act, Enabled, FromApplication;
    if Enabled(c.exchanges[i], a) { ActKeepsStory(c.exchanges[i], a); }
  }

  predicate SameButEnding(c: Conn, d: Conn) {
    && d.cfg == c.cfg && d.parser == c.parser && d.upgraded == c.upgraded && d.exchanges == c.exchanges
    && d.received == c.received && d.seen == c.seen && (d.current == c.current || d.current.None?)
  }

  lemma EndingProgresses(c: Conn, d: Conn)
    requires Indexed(c) && SameButEnding(c, d)
    ensures Progress(c, d)
  {
    hide AllLived;
  }

  lemma EndingsProgress(c: Conn, status: int)
    requires Indexed(c)
    ensures Progress(c, CloseTransport(c)) && Progress(c, FailWith(c, status)) && Progress(c, c.(current := None))
    ensures Progress(c, UpdateReadPause(c)) && Progress(c, MaybeResumeReading(c))
  {
    hide Progress;
    EndingProgresses(c, CloseTransport(c));
    EndingProgresses(c, FailWith(c, status));
    EndingProgresses(c, c.(current := None));
    EndingProgresses(c, UpdateReadPause(c));
    EndingProgresses(c, MaybeResumeReading(c));
  }

  lemma FlagsKeepMatched(c: Conn, ended: set<nat>)
    requires Matched(c)
    ensures Matched(c.(ended := ended)) && Matched(c.(transport := Lost))
    ensures Matched(c.(closing := true)) && Matched(c.(shouldExit := true)) && forall framed :: Matched(c.(framed := framed))
  {
    hide AllLived, Messages, Faithful;
  }

  lemma OtherParserMatches(c: Conn, p: Parser)
    requires Indexed(c) && Matches(c, p)
    ensures forall q :: Matches(c.(parser := q), p)
  {
  }

  lemma ResumeKeepsMatched(c: Conn)
    requires Live(c) && Matched(c)
    ensures Matched(ResumeParsing(c))
  {
    hide Drain, WireSound, OnEvents, Matches, AllLived, Faithful, Progress;
    if !c.transport.Lost? {
      var d := Drain(c.parser, false);
      OtherParser(c, c.parser, d.next);
      OtherParserMatches(c, c.parser);
      var c' := c.(parser := d.next);
      DrainKeepsMatches(c', c.parser);
      EventsKeepLived(c', d.events);
      DrainedIsFaithful(c.cfg.limits, c.received, c.seen, c.parser);
      var e := OnEvents(c', d.events);
      EndingsProgress(e, if d.next.error.Some? then d.next.error.value.Status() else 0);
      ProgressKeepsMatched(e, ResumeParsing(c));
    }
  }

  lemma NextKeepsMatched(c: Conn)
    requires Matched(c) && c.parser.phase == Complete && c.parser.error.None?
    ensures Matched(c.(parser := StartNext(c.parser)))
  {
    NextIsFaithful(c.cfg.limits, c.received, c.seen, c.parser);
    hide Faithful, Messages, AllLived;
  }

  lemma CompleteKeepsMatched(c: Conn, i: nat)
    requires SoundFor(c, c.parser) && Matched(c) && i < |c.exchanges| && c.exchanges[i].cycle.responseComplete
    ensures Matched(OnResponseComplete(c, i))
  {
    if c.current == Some(i) {
      BetweenIsLive(c, i);
      NoErrorWhenComplete(c);
      var n := c.(current := None);
      var d := MaybeResumeReading(n);
      hide WireSound, SoundFor, SteadyFor, Matched, Progress, ResumeParsing;
      EndingsProgress(c, 0);
      ProgressKeepsMatched(c, n);
      EndingsProgress(n, 0);
      ProgressKeepsMatched(n, d);
      EndingsProgress(d, 0);
      ProgressKeepsMatched(d, CloseTransport(d));
      if d.parser.phase == Complete {
        NextKeepsMatched(d);
        ResumeKeepsMatched(d.(parser := StartNext(d.parser)));
      }
    }
  }

  lemma NoErrorWhenComplete(c: Conn)
    requires SoundFor(c, c.parser)
    ensures c.parser.phase == Complete ==> c.parser.error.None?
  {
  }

  lemma RespondKeepsMatched(c: Conn, i: nat, m: SendMessage)
    requires Live(c) && Matched(c) && i < |c.exchanges|
    ensures Matched(Respond(c, i, m))
  {
    hide WireSound, Act, Send, OnResponseComplete, Matched, Progress;
    match Send(c.exchanges[i].cycle, m, ShouldClose(c))
    case SendRaises =>
    case Sent(next, outputs) =>
      var a := CallSend(m, ShouldClose(c));
      SentKeepsSound(c, i, m);
      var d := Put(StepExchange(c, i, a), i, outputs);
      StepProgresses(c, i, a, outputs);
      ProgressKeepsMatched(c, d);
      if next.responseComplete { CompleteKeepsMatched(d, i); }
  }

  lemma ErrorKeepsMatched(c: Conn, i: nat)
    requires Matched(c) && i < |c.exchanges|
    ensures Matched(OnAppError(c, i))
  {
    hide Matched, Progress;
    assert Indexed(c) by { MatchedIsIndexed(c); }
    EndingsProgress(c, 500);
    ProgressKeepsMatched(c, c.(current := None));
    var d := if c.current == Some(i) then c.(current := None) else c;
    EndingsProgress(d, 500);
    ProgressKeepsMatched(d, OnAppError(c, i));
  }

  lemma MatchedIsIndexed(c: Conn)
    requires Matched(c)
    ensures Indexed(c)
  {
  }

  lemma EofKeepsMatched(c: Conn)
    requires Matched(c)
    ensures Matched(c.(parser := c.parser.(eof := true)))
  {
    EofIsFaithful(c.cfg.limits, c.received, c.seen, c.parser);
    hide Faithful, Messages, AllLived;
  }

  lemma FeedKeepsMatched(c: Conn, data: bytes)
    requires Matched(c) && !c.parser.eof
    ensures Matched(c.(parser := Feed(c.parser, data), received := c.received + data))
  {
    FedIsFaithful(c.cfg.limits, c.received, c.seen, c.parser, data);
    hide Faithful, Messages, AllLived;
  }

  lemma DisconnectKeepsMatched(c: Conn)
    requires Matched(c)
    ensures Matched(Disconnect(c))
  {
    MatchedIsIndexed(c);
    hide Matched, Progress;
    if c.current.Some? {
      StepProgresses(c, c.current.value, OnDisconnect, []);
      ProgressKeepsMatched(c, Disconnect(c));
    }
  }

  lemma AppStepKeepsMatched(c: Conn, i: nat, w: Waiting)
    requires Matched(c) && i < |c.exchanges|
    ensures Matched(Receive(c, i)) && Matched(WakeUp(c, i, w))
  {
    MatchedIsIndexed(c);
    hide Matched, Progress, DeliversBody;
    StepProgresses(c, i, CallReceive, BeginReceive(c.exchanges[i].cycle).outputs);
    ProgressKeepsMatched(c, Receive(c, i));
    StepProgresses(c, i, Wake(w), []);
    var d := StepExchange(c, i, Wake(w));
    ProgressKeepsMatched(c, d);
    MatchedIsIndexed(d);
    EndingsProgress(d, 0);
    ProgressKeepsMatched(d, MaybeResumeReading(d));
  }

  lemma EndKeepsMatched(c: Conn, i: nat, raised: bool)
    requires Live(c) && Matched(c) && i < |c.exchanges|
    ensures Matched(EndRun(c, i, raised))
  {
    hide SoundFor, Respond, OnAppError, Matched, Act, Send;
    var x := c.exchanges[i].cycle;
    if raised || !x.responseStarted {
      ErrorKeepsMatched(c, i);
      FlagsKeepMatched(OnAppError(c, i), OnAppError(c, i).ended + {i});
    } else if !x.responseComplete {
      var d := Respond(c, i, ResponseBody([], false));
      RespondKeepsMatched(c, i, ResponseBody([], false));
      FlagsKeepMatched(d, d.ended + {i});
    } else {
      FlagsKeepMatched(c, c.ended + {i});
    }
  }

  lemma CloseKeepsMatched(c: Conn, status: int)
    requires Matched(c)
    ensures Matched(CloseTransport(c)) && Indexed(c) && Matched(FailWith(c, status))
  {
    MatchedIsIndexed(c);
    hide Matched, Progress;
    EndingsProgress(c, status);
    ProgressKeepsMatched(c, CloseTransport(c));
    ProgressKeepsMatched(c, FailWith(c, status));
  }

  lemma ActionKeepsMatched(c: Conn, a: ConnAction)
    requires Live(c) && Matched(c) && CanAct(c, a)
    ensures Matched(ActOn(c, a))
  {
    hide SoundFor, Respond, EndRun, Receive, WakeUp, ResumeParsing, FailWith, CloseTransport, Disconnect, Unfinished, Enabled;
    hide Matched;
    FeedKeepsLive(c, []);
    FlagsKeepMatched(c, {});
    match a
    case DataReceived(data) =>
      FeedKeepsLive(c, data);
      FeedKeepsMatched(c, data);
      if !c.upgraded { ResumeKeepsMatched(c.(parser := Feed(c.parser, data), received := c.received + data)); }
    case EofReceived =>
      var d := c.(parser := c.parser.(eof := true));
      FeedKeepsLive(d, []);
      EofKeepsMatched(c);
      FlagsKeepMatched(d, {});
      CloseKeepsMatched(d, 0);
      ResumeKeepsMatched(d.(closing := true));
      DisconnectKeepsMatched(ResumeParsing(d.(closing := true)));
    case ConnectionLost => DisconnectKeepsMatched(c.(transport := Lost));
    case IdleTimeout => CloseKeepsMatched(c, 0);
    case HeaderTimeout => CloseKeepsMatched(c, 408);
    case Shutdown => CloseKeepsMatched(c.(closing := true), 0);
    case ExitRequested =>
    case AppReceive(i) => AppStepKeepsMatched(c, i, Returns);
    case AppWake(i, w) => AppStepKeepsMatched(c, i, w);
    case AppSend(i, m) => RespondKeepsMatched(c, i, m);
    case AppEnd(i, raised) => EndKeepsMatched(c, i, raised);
  }

  lemma {:induction false} RunKeepsMatched(start: Conn, actions: seq<ConnAction>, c: Conn)
    requires Live(start) && Matched(start) && Reaches(start, actions, c)
    ensures Matched(c)
    decreases |actions|
  {
    hide ActOn, CanAct, SoundFor, Unfinished, Matched;
    if actions != [] {
      ActionKeepsLive(start, actions[0]);
      ActionKeepsMatched(start, actions[0]);
      RunKeepsMatched(ActOn(start, actions[0]), actions[1..], c);
    }
  }

  lemma NewIsMatched(cfg: Config)
    requires cfg.limits.maxRequestLine >= 1
    ensures Matched(NewConn(cfg))
  {
    FreshIsFaithful(cfg.limits);
    hide Faithful;
  }

  /** Later events leave the messages that are whole as they are. */
  predicate KeepsWhole(ms: seq<Message>, all: seq<Message>) {
    Prolongs(ms, all) && forall i :: 0 <= i < |ms| && ms[i].whole ==> all[i] == ms[i]
  }

  lemma CollectKeepsWhole(ms: seq<Message>, events: seq<Event>)
    requires ms != [] && ms[|ms| - 1].whole ==> events == [] || events[0].Head?
    ensures KeepsWhole(ms, Collect(ms, events))
  {
    hide Collect;
    CollectProlongs(ms, events);
  }

  lemma SeenMessagesStay(limits: Limits, received: bytes, seen: seq<Event>, p: Parser)
    requires Faithful(limits, received, seen, p) && Readable(limits, received) && Inside(p, Messages(seen))
    ensures KeepsWhole(Messages(seen), Messages(Serial(limits, received).events))
  {
    hide Separated, Drain, Serial, Messages, KeepsWhole, Faithful, Readable, Trace;
    var q, ms := BeforeEof(p), Messages(seen);
    FaithfulNow(limits, received, seen, p);
    var rest := Drain(q, true).events;
    RestFollows(limits, received, seen, q);
    SerialMessages(Serial(limits, received).events, seen, rest);
    if ms != [] && ms[|ms| - 1].whole { NextIsHead(q); }
    CollectKeepsWhole(ms, rest);
  }

  lemma FaithfulNow(limits: Limits, received: bytes, seen: seq<Event>, p: Parser)
    requires Faithful(limits, received, seen, p)
    ensures Sane(BeforeEof(p)) && FaithfulWith(limits, received, seen, BeforeEof(p), [])
  {
  }

  lemma RestFollows(limits: Limits, received: bytes, seen: seq<Event>, p: Parser)
    requires FaithfulWith(limits, received, seen, p, []) && Readable(limits, received)
    ensures Trace(Serial(limits, received).events) == Trace(seen) + Trace(Drain(p, true).events)
  {
    hide Separated, Drain, Trace, Serial;
    assert received + [] == received;
    FeedNothing(p);
  }

  lemma SerialMessages(all: seq<Event>, seen: seq<Event>, rest: seq<Event>)
    requires Trace(all) == Trace(seen) + Trace(rest)
    ensures Messages(all) == Collect(Messages(seen), rest)
  {
    CollectTrace([], all);
    CollectConcat([], Trace(seen), Trace(rest));
    CollectTrace([], seen);
    CollectTrace(Messages(seen), rest);
  }

  /** Between messages the next event is a request head. */
  lemma {:induction false} NextIsHead(p: Parser)
    requires Sane(p) && (p.phase == Complete || HeadPhase(p.phase) || p.phase == Failed)
    ensures var events := Drain(p, true).events; events == [] || events[0].Head?
    decreases |p.buffer|, Rank(p.phase)
  {
    if p.error.None? {
      if p.phase == Complete {
        NextIsHead(StartNext(p));
      } else {
        EmitPhases(p);
        StepKeepsSane(p);
        hide StepOf, Sane;
        match StepOf(p)
        case Again(next) => NextIsHead(next);
        case _ =>
      }
    }
  }

  /** In every run, whatever the cuts, the pauses and the order in which the applications
      act: exchange `i` serves message `i` of the stream. Its application has been handed
      a prefix of that message's body, and all of it if it was told that the body ended. */
  lemma EveryRequestIsServedAsSent(cfg: Config, actions: seq<ConnAction>, c: Conn, i: nat)
    requires cfg.limits.maxRequestLine >= 1
    requires Reaches(NewConn(cfg), actions, c) && i < |c.exchanges|
    requires Readable(cfg.limits, c.received)
    ensures var all, x := Messages(Serial(cfg.limits, c.received).events), c.exchanges[i];
            && i < |all| && Serves(x, all[i]) && Lived(x)
            && x.handed <= all[i].body && (x.finals > 0 ==> all[i].whole && x.handed == all[i].body)
  {
    hide Reaches, SoundFor, Drain, Separated;
    NewIsLive(cfg);
    NewIsMatched(cfg);
    RunKeepsMatched(NewConn(cfg), actions, c);
    RunKeepsConfig(NewConn(cfg), actions, c);
    SeenMessagesStay(c.cfg.limits, c.received, c.seen, c.parser);
    hide Faithful, Messages, Serial, Readable, Reachable;
    var x := c.exchanges[i];
    assert Serves(x, Messages(c.seen)[i]);
    assert Messages(c.seen)[i].whole ==> Messages(Serial(cfg.limits, c.received).events)[i] == Messages(c.seen)[i];
    assert Continues(Messages(c.seen)[i], Messages(Serial(cfg.limits, c.received).events)[i]);
    assert Lived(x);
    var head: RequestHead, steps: seq<Action> :| Reachable(NewExchange(head), steps, x);
    BodyIsConserved(head, steps, x);
  }
}
