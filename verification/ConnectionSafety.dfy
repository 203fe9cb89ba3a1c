/** What holds in every state of a connection: one exchange at a time, responses in
    request order, and reading paused only while there is something to read. */
module ConnectionSafety {
  import opened Bytes
  import opened ParserSpec
  import opened ExchangeSpec
  import opened ConnectionSpec

  // -- the order of the writes -----------------------------------------------------

  function WritesOf(exchanges: seq<Exchange>, n: nat): seq<Write>
    requires n <= |exchanges|
  {
    if n == 0 then [] else WritesOf(exchanges, n - 1) + Tagged(n - 1, exchanges[n - 1].outputs)
  }

  predicate AllComplete(exchanges: seq<Exchange>, n: nat)
    requires n <= |exchanges|
  {
    forall i :: 0 <= i < n ==> exchanges[i].cycle.responseComplete
  }

  /** `k` whole responses in order, the first `n` outputs of the next, and an error
      answer or nothing. */
  predicate Arranged(wire: seq<Write>, exchanges: seq<Exchange>, k: nat, n: nat, tail: seq<Write>) {
    && k <= |exchanges| && AllComplete(exchanges, k)
    && (if k < |exchanges| then n <= |exchanges[k].outputs| else n == 0)
    && (tail == [] || (|tail| == 1 && tail[0].ErrorAnswer?))
    && wire == WritesOf(exchanges, k) + (if k < |exchanges| then Tagged(k, exchanges[k].outputs[..n]) else []) + tail
  }

  /** All bytes of one response precede those of the next, and every response but the
      last on the wire is complete. */
  ghost predicate InOrder(wire: seq<Write>, exchanges: seq<Exchange>) {
    exists k: nat, n: nat, tail: seq<Write> :: Arranged(wire, exchanges, k, n, tail)
  }

  /** Outputs only grow, and those of a complete response not at all. */
  predicate GrowsTo(x: Exchange, y: Exchange) {
    && x.outputs <= y.outputs
    && (x.cycle.responseComplete ==> y.cycle.responseComplete && y.outputs == x.outputs)
  }

  predicate Grow(before: seq<Exchange>, after: seq<Exchange>) {
    |before| <= |after| && forall i :: 0 <= i < |before| ==> GrowsTo(before[i], after[i])
  }

  lemma ActGrows(x: Exchange, a: Action)
    requires Enabled(x, a)
    ensures GrowsTo(x, Act(x, a))
  {
    match a
    case CallSend(_, _) => hide SendBody, Poll;
    case Wake(_) => hide Send;
    case _ => hide Send, Poll;
  }

  lemma GrowTrans(a: seq<Exchange>, b: seq<Exchange>, c: seq<Exchange>)
    requires Grow(a, b) && Grow(b, c)
    ensures Grow(a, c)
  {
    forall i | 0 <= i < |a| ensures GrowsTo(a[i], c[i]) {
      assert GrowsTo(a[i], b[i]) && GrowsTo(b[i], c[i]);
    }
  }

  lemma {:induction false} WritesAlike(a: seq<Exchange>, b: seq<Exchange>, n: nat)
    requires n <= |a| && n <= |b| && forall i :: 0 <= i < n ==> a[i].outputs == b[i].outputs
    ensures WritesOf(a, n) == WritesOf(b, n)
  {
    if n > 0 { WritesAlike(a, b, n - 1); }
  }

  lemma OrderIsStable(wire: seq<Write>, before: seq<Exchange>, after: seq<Exchange>)
    requires InOrder(wire, before) && Grow(before, after)
    ensures InOrder(wire, after)
  {
    var k: nat, n: nat, tail: seq<Write> :| Arranged(wire, before, k, n, tail);
    forall i | 0 <= i < k ensures before[i].outputs == after[i].outputs && after[i].cycle.responseComplete {
      assert GrowsTo(before[i], after[i]);
    }
    WritesAlike(before, after, k);
    if k < |before| {
      assert GrowsTo(before[k], after[k]);
      assert after[k].outputs[..n] == before[k].outputs[..n];
    } else if k < |after| {
      assert Tagged(k, after[k].outputs[..0]) == [];
    }
    assert Arranged(wire, after, k, n, tail);
  }

  /** While the transport is open everything written so far has been sent. */
  predicate AllSent(c: Conn) { c.wire == WritesOf(c.exchanges, |c.exchanges|) }

  lemma SentIsInOrder(c: Conn, tail: seq<Write>)
    requires AllSent(c) && |c.exchanges| > 0 ==> AllComplete(c.exchanges, |c.exchanges| - 1)
    requires AllSent(c) && (tail == [] || (|tail| == 1 && tail[0].ErrorAnswer?))
    ensures InOrder(c.wire + tail, c.exchanges)
  {
    var n := |c.exchanges|;
    if n == 0 {
      assert c.wire + tail == WritesOf(c.exchanges, 0) + [] + tail;
      assert Arranged(c.wire + tail, c.exchanges, 0, 0, tail);
    } else {
      var m := |c.exchanges[n - 1].outputs|;
      assert c.exchanges[n - 1].outputs[..m] == c.exchanges[n - 1].outputs;
      assert Arranged(c.wire + tail, c.exchanges, n - 1, m, tail);
    }
  }

  // -- the invariant -----------------------------------------------------------------

  predicate HeadPhase(phase: Phase) { phase == RequestLine || phase == Headers }

  /** The exchange in progress agrees with the parser `p`: its request head has been
      read, and its body is complete exactly when the message is. */
  predicate Tracks(c: Conn, p: Parser) {
    && (p.phase == Failed <==> p.error.Some?)
    && (c.upgraded ==> c.current.None?)
    && (c.current.Some? || c.upgraded ==> !HeadPhase(p.phase))
    && (c.current.Some? ==>
          && c.current.value == |c.exchanges| - 1 && c.current.value !in c.ended
          && (c.exchanges[c.current.value].cycle.bodyComplete <==> p.phase == Complete))
  }

  predicate OthersComplete(c: Conn) {
    forall i :: 0 <= i < |c.exchanges| && c.current != Some(i) ==> c.exchanges[i].cycle.responseComplete
  }

  ghost predicate WireSound(c: Conn) {
    if c.transport.Open? then AllSent(c) && OthersComplete(c) else InOrder(c.wire, c.exchanges)
  }

  predicate PauseSound(c: Conn)
    requires Indexed(c)
  {
    c.readPaused && c.transport.Open? ==> c.current.Some? && BufferedBody(c) >= c.cfg.highWater
  }

  /** Everything but that the response in progress is unfinished. */
  ghost predicate SoundFor(c: Conn, p: Parser) {
    && Indexed(c) && Tracks(c, p) && WireSound(c) && PauseSound(c)
    && (forall i :: i in c.ended ==> i < |c.exchanges|)
  }

  predicate Unfinished(c: Conn)
    requires Indexed(c)
  {
    c.current.Some? ==> !c.exchanges[c.current.value].cycle.responseComplete
  }

  ghost predicate Live(c: Conn) { Indexed(c) && SoundFor(c, c.parser) && Unfinished(c) }

  // -- one step of one exchange --------------------------------------------------------

  lemma StepGrows(c: Conn, i: nat, a: Action)
    requires i < |c.exchanges|
    ensures Grow(c.exchanges, StepExchange(c, i, a).exchanges)
  {
    hide Act;
    if Enabled(c.exchanges[i], a) { ActGrows(c.exchanges[i], a); }
  }

  /** Steps that write nothing keep the order. */
  lemma QuietStepKeepsWire(c: Conn, i: nat, a: Action)
    requires i < |c.exchanges| && WireSound(c)
    requires Enabled(c.exchanges[i], a) ==> Act(c.exchanges[i], a).outputs == c.exchanges[i].outputs
    ensures WireSound(StepExchange(c, i, a))
  {
    hide Act;
    StepGrows(c, i, a);
    var d := StepExchange(c, i, a);
    if c.transport.Open? {
      WritesAlike(c.exchanges, d.exchanges, |c.exchanges|);
      forall j | 0 <= j < |d.exchanges| && d.current != Some(j) ensures d.exchanges[j].cycle.responseComplete {
        assert GrowsTo(c.exchanges[j], d.exchanges[j]);
      }
    } else {
      OrderIsStable(c.wire, c.exchanges, d.exchanges);
    }
  }

  lemma CompleteWritesNothing(x: Exchange, a: Action)
    requires Enabled(x, a) && x.cycle.responseComplete
    ensures Act(x, a).outputs == x.outputs
  {
    ActGrows(x, a);
    hide Act;
  }

  /** Writing steps: while the transport is open, only the exchange in progress writes,
      and it is the last one begun. */
  lemma WritingStepKeepsWire(c: Conn, i: nat, a: Action, outputs: seq<Output>)
    requires Indexed(c) && i < |c.exchanges| && WireSound(c) && Enabled(c.exchanges[i], a)
    requires c.current.Some? ==> c.current.value == |c.exchanges| - 1
    requires Act(c.exchanges[i], a).outputs == c.exchanges[i].outputs + outputs
    ensures WireSound(Put(StepExchange(c, i, a), i, outputs))
  {
    hide Act;
    var s, x, y := StepExchange(c, i, a), c.exchanges[i], Act(c.exchanges[i], a);
    StepGrows(c, i, a);
    var d := Put(s, i, outputs);
    if !c.transport.Open? {
      OrderIsStable(c.wire, c.exchanges, d.exchanges);
    } else {
      forall j | 0 <= j < |d.exchanges| && d.current != Some(j) ensures d.exchanges[j].cycle.responseComplete {
        assert GrowsTo(c.exchanges[j], d.exchanges[j]);
      }
      var n := |c.exchanges|;
      if x.cycle.responseComplete {
        CompleteWritesNothing(x, a);
        assert outputs == [] by { assert |x.outputs + outputs| == |x.outputs|; }
        WritesAlike(c.exchanges, d.exchanges, n);
        assert Tagged(i, outputs) == [];
      } else {
        assert i == n - 1;
        WritesAlike(c.exchanges, d.exchanges, n - 1);
        assert Tagged(i, y.outputs) == Tagged(i, x.outputs) + Tagged(i, outputs);
      }
    }
  }

  // -- parsing -----------------------------------------------------------------------

  lemma BeginKeepsSound(c: Conn, p: Parser, head: RequestHead, next: Parser)
    requires SoundFor(c, p) && Unfinished(c) && HeadPhase(p.phase)
    requires next.error.None? && next.phase != Failed && !HeadPhase(next.phase) && next.phase != Complete
    ensures var d := BeginRequest(c, head); SoundFor(d, next) && Unfinished(d)
  {
    hide IsUpgrade, WireSound;
    BeginKeepsWire(c, head);
  }

  lemma BeginKeepsWire(c: Conn, head: RequestHead)
    requires WireSound(c) && c.current.None?
    ensures WireSound(BeginRequest(c, head))
  {
    hide IsUpgrade, NewExchange;
    var d, n, x := BeginRequest(c, head), |c.exchanges|, NewExchange(head);
    if !IsUpgrade(head) {
      assert x.outputs == [] by { NewWritesNothing(head); }
      NewKeepsOrder(c.wire, c.exchanges, x);
    }
  }

  lemma NewWritesNothing(head: RequestHead)
    ensures NewExchange(head).outputs == []
  {
  }

  lemma NewKeepsOrder(wire: seq<Write>, exchanges: seq<Exchange>, x: Exchange)
    requires x.outputs == []
    ensures WritesOf(exchanges + [x], |exchanges| + 1) == WritesOf(exchanges, |exchanges|)
    ensures InOrder(wire, exchanges) ==> InOrder(wire, exchanges + [x])
  {
    var all, n := exchanges + [x], |exchanges|;
    WritesAlike(exchanges, all, n);
    assert Tagged(n, []) == [];
    assert WritesOf(all, n) + [] == WritesOf(all, n);
    if InOrder(wire, exchanges) {
      assert Grow(exchanges, all);
      OrderIsStable(wire, exchanges, all);
    }
  }

  lemma FedKeepsSound(c: Conn, p: Parser, a: Action, next: Parser)
    requires SoundFor(c, p) && Unfinished(c) && c.current.Some?
    requires a.FeedBody? || a.FeedEom?
    requires p.phase != Complete && (next.phase == Complete <==> a.FeedEom?)
    requires !HeadPhase(next.phase) && next.phase != Failed && next.error.None?
    ensures var d := StepExchange(c, c.current.value, a); SoundFor(d, next) && Unfinished(d) && d.current == c.current
    ensures Enabled(c.exchanges[c.current.value], a)
  {
    hide WireSound;
    QuietStepKeepsWire(c, c.current.value, a);
  }

  /** What a step of the parser says about the phases around it. */
  predicate PhasesAround(p: Parser, s: Step) {
    match s
    case Emit(e, next) =>
      && next.error.None? && !HeadPhase(next.phase) && next.phase != Failed
      && (e.Head? <==> p.phase == Headers) && (next.phase == Complete <==> e.EndOfMessage?) && p.phase != RequestLine
    case Again(next) =>
      && next.error.None? && next.phase != Complete && next.phase != Failed
      && (HeadPhase(next.phase) <==> HeadPhase(p.phase))
    case Wait(next) => next.phase == p.phase && next.error == p.error
    case Raise(next) => next.error.Some? && next.phase == Failed
  }

  lemma LinePhases(p: Parser)
    requires p.error.None? && p.phase == RequestLine
    ensures PhasesAround(p, StepOf(p))
  {
    hide ReadLine, StepHeaders, StepBodyLength, StepChunkSize, StepChunkBody, StepChunkCrlf, StepTrailers, MatchRequestLine;
  }

  lemma HeaderPhases(p: Parser)
    requires p.error.None? && p.phase == Headers
    ensures PhasesAround(p, StepOf(p))
  {
    hide ReadLine, StepRequestLine, StepBodyLength, StepChunkSize, StepChunkBody, StepChunkCrlf, StepTrailers;
    hide FramingOf, BuildHead, MatchHeaderLine;
  }

  lemma BodyPhases(p: Parser)
    requires p.error.None? && p.phase != Failed && !HeadPhase(p.phase)
    ensures PhasesAround(p, StepOf(p))
  {
    hide ReadLine, StepRequestLine, StepHeaders, MatchChunkSize, MatchHeaderLine;
  }

  lemma EmitPhases(p: Parser)
    requires p.error.None? && p.phase != Failed
    ensures PhasesAround(p, StepOf(p))
  {
    hide StepOf, PhasesAround;
    if p.phase == RequestLine { LinePhases(p); }
    else if p.phase == Headers { HeaderPhases(p); }
    else { BodyPhases(p); }
  }

  /** An exchange is only ever begun behind the others, and only where none is in progress. */
  predicate Began(c: Conn, d: Conn) {
    && d.parser == c.parser && d.transport == c.transport && |d.exchanges| >= |c.exchanges|
    && (d.current == c.current || (c.current.None? && |d.exchanges| > |c.exchanges|))
  }

  lemma SeenKeepsSound(c: Conn, p: Parser, seen: seq<Event>)
    requires SoundFor(c, p)
    ensures SoundFor(c.(seen := seen), p)
  {
  }

  lemma EventKeepsSound(c: Conn, p: Parser, e: Event, next: Parser)
    requires SoundFor(c, p) && Unfinished(c) && p.error.None? && p.phase != Failed && p.phase != Complete
    requires StepOf(p) == Emit(e, next)
    ensures var d := OnEvent(c, e);
            SoundFor(d, next) && Unfinished(d) && Began(c, d)
  {
    EmitPhases(p);
    var c' := c.(seen := c.seen + [e]);
    SeenKeepsSound(c, p, c'.seen);
    hide StepOf, WireSound, Act, BeginRequest;
    match e
    case Head(head) => BeginKeepsSound(c', p, head, next);
    case BodyData(data) => if c'.current.Some? { FedKeepsSound(c', p, FeedBody(data), next); }
    case EndOfMessage => if c'.current.Some? { FedKeepsSound(c', p, FeedEom, next); }
  }

  lemma PhaseChangeKeepsSound(c: Conn, p: Parser, next: Parser)
    requires SoundFor(c, p)
    requires next.phase == Failed <==> next.error.Some?
    requires c.current.Some? || c.upgraded ==> !HeadPhase(next.phase)
    requires c.current.Some? ==> (next.phase == Complete <==> p.phase == Complete)
    ensures SoundFor(c, next)
  {
    hide WireSound;
  }

  lemma {:induction false} DrainKeepsSound(c: Conn, p: Parser)
    requires SoundFor(c, p) && Unfinished(c)
    ensures var d := Drain(p, false);
            var e := OnEvents(c, d.events);
            SoundFor(e, d.next) && Unfinished(e) && Began(c, e)
    decreases |p.buffer|, Rank(p.phase)
  {
    if p.error.None? && p.phase != Complete {
      EmitPhases(p);
      hide StepOf, SoundFor, OnEvent;
      match StepOf(p)
      case Again(next) =>
        PhaseChangeTracked(c, p, next);
        DrainKeepsSound(c, next);
      case Emit(e, next) =>
        NotFailed(c, p);
        EventKeepsSound(c, p, e, next);
        DrainKeepsSound(OnEvent(c, e), next);
        var d := Drain(next, false);
        assert ([e] + d.events)[1..] == d.events;
      case Wait(next) => PhaseChangeTracked(c, p, next);
      case Raise(next) => PhaseChangeTracked(c, p, next);
    }
  }

  /** One call of `next_event` and what the connection does with its event. */
  lemma {:induction false} NextEventKeepsSound(c: Conn, p: Parser)
    requires SoundFor(c, p) && Unfinished(c)
    ensures var t := NextEvent(p);
            if t.outcome.Got? then
              var d := OnEvent(c, t.outcome.event);
              && SoundFor(d, t.next) && Unfinished(d)
              && (c.current.Some? && !t.outcome.event.Head? ==> !c.exchanges[c.current.value].cycle.bodyComplete)
            else SoundFor(c, t.next)
    decreases |p.buffer|, Rank(p.phase)
  {
    if p.error.None? && p.phase != Complete {
      EmitPhases(p);
      NotFailed(c, p);
      match StepOf(p)
      case Again(next) =>
        hide StepOf, SoundFor, OnEvent;
        PhaseChangeTracked(c, p, next);
        NextEventKeepsSound(c, next);
      case Emit(e, next) =>
        hide StepOf, OnEvent, WireSound;
        EventKeepsSound(c, p, e, next);
      case Wait(next) => hide StepOf, SoundFor, OnEvent; PhaseChangeTracked(c, p, next);
      case Raise(next) => hide StepOf, SoundFor, OnEvent; PhaseChangeTracked(c, p, next);
    }
  }

  lemma NotFailed(c: Conn, p: Parser)
    requires SoundFor(c, p) && p.error.None?
    ensures p.phase != Failed
  {
  }

  lemma PhaseChangeTracked(c: Conn, p: Parser, next: Parser)
    requires SoundFor(c, p) && p.error.None? && p.phase != Complete
    requires StepOf(p) == Again(next) || StepOf(p) == Wait(next) || StepOf(p) == Raise(next)
    ensures SoundFor(c, next)
  {
    NotFailed(c, p);
    EmitPhases(p);
    hide StepOf, WireSound;
    PhaseChangeKeepsSound(c, p, next);
  }

  // -- the end of a response, of the connection -----------------------------------------

  /** Nothing is written once the transport closes, save for one error answer. */
  lemma ShutKeepsSound(c: Conn, p: Parser, current: Option<nat>, transport: Transport, tail: seq<Write>)
    requires SoundFor(c, p) && !transport.Open? && (current == c.current || current == None)
    requires tail == [] || (c.transport.Open? && |tail| == 1 && tail[0].ErrorAnswer?)
    ensures SoundFor(c.(current := current, wire := c.wire + tail, transport := transport), p)
  {
    if c.transport.Open? {
      SentIsInOrder(c, tail);
    } else {
      assert c.wire + tail == c.wire;
    }
  }

  lemma CloseKeepsLive(c: Conn)
    requires Live(c)
    ensures Live(CloseTransport(c))
  {
    hide SoundFor;
    if c.transport.Open? {
      ShutKeepsSound(c, c.parser, c.current, ClosingDown, []);
      assert c.wire + [] == c.wire;
    }
  }

  lemma DropKeepsLive(c: Conn)
    requires Live(c)
    ensures Live(CloseTransport(c.(current := None)))
  {
    hide SoundFor;
    ShutKeepsSound(c, c.parser, None, if c.transport.Open? then ClosingDown else c.transport, []);
    assert c.wire + [] == c.wire;
  }

  lemma AbandonKeepsLive(c: Conn, status: int)
    requires Live(c)
    ensures Live(FailWith(c.(current := None), status))
  {
    hide SoundFor;
    if c.transport.Open? {
      ShutKeepsSound(c, c.parser, None, ClosingDown, [ErrorAnswer(status)]);
    } else {
      DropKeepsLive(c);
    }
  }

  lemma FailKeepsLive(c: Conn, status: int)
    requires Live(c)
    ensures Live(FailWith(c, status))
  {
    CloseKeepsLive(c);
    AbandonKeepsLive(c, status);
    hide SoundFor;
  }

  lemma OtherParser(c: Conn, p: Parser, q: Parser)
    requires SoundFor(c, p)
    ensures SoundFor(c.(parser := q), p)
  {
  }

  lemma ResumeKeepsLive(c: Conn)
    requires Live(c)
    ensures Live(ResumeParsing(c))
    ensures |ResumeParsing(c).exchanges| >= |c.exchanges|
    ensures c.current.None? && ResumeParsing(c).current.Some? ==> ResumeParsing(c).current.value >= |c.exchanges|
  {
    hide Drain, WireSound, OnEvents;
    if !c.transport.Lost? {
      var d := Drain(c.parser, false);
      OtherParser(c, c.parser, d.next);
      var c' := c.(parser := d.next);
      DrainKeepsSound(c', c.parser);
      var e := OnEvents(c', d.events);
      if d.next.error.Some? {
        FailKeepsLive(e, d.next.error.value.Status());
      } else {
        PauseKeepsLive(e);
      }
    }
  }

  lemma PauseKeepsLive(c: Conn)
    requires Live(c)
    ensures Live(UpdateReadPause(c))
  {
  }

  /** Everything but the pause. */
  ghost predicate SteadyFor(c: Conn, p: Parser) {
    && Indexed(c) && Tracks(c, p) && WireSound(c)
    && (forall i :: i in c.ended ==> i < |c.exchanges|)
  }

  lemma MaybeResumeKeepsSound(c: Conn, p: Parser)
    requires SteadyFor(c, p) && (PauseSound(c) || BufferedBody(c) == 0)
    ensures SoundFor(MaybeResumeReading(c), p)
  {
    hide InOrder;
  }

  lemma NextMessageKeepsLive(c: Conn)
    requires Live(c) && c.current.None? && !c.upgraded && c.parser.phase == Complete
    ensures Live(c.(parser := StartNext(c.parser)))
  {
  }

  /** The state between a response's end and the next message. */
  lemma BetweenIsLive(c: Conn, i: nat)
    requires SoundFor(c, c.parser) && c.current == Some(i) && c.exchanges[i].cycle.responseComplete
    ensures var d := MaybeResumeReading(c.(current := None));
            Live(d) && (d.parser.phase == Complete ==> Live(d.(parser := StartNext(d.parser))))
  {
    hide InOrder;
    var n := c.(current := None);
    var d := MaybeResumeReading(n);
    assert SteadyFor(n, n.parser);
    MaybeResumeKeepsSound(n, n.parser);
    NotUpgraded(c);
    hide WireSound, SoundFor, SteadyFor;
    if d.parser.phase == Complete { NextMessageKeepsLive(d); }
  }

  lemma CompleteKeepsLive(c: Conn, i: nat)
    requires SoundFor(c, c.parser) && i < |c.exchanges| && c.exchanges[i].cycle.responseComplete
    requires c.current != Some(i) ==> Unfinished(c)
    ensures Live(OnResponseComplete(c, i))
    ensures var d := OnResponseComplete(c, i); d.current != Some(i) && |d.exchanges| >= |c.exchanges|
  {
    hide ResumeParsing, WireSound;
    if c.current == Some(i) {
      BetweenIsLive(c, i);
      var d := MaybeResumeReading(c.(current := None));
      hide SoundFor;
      CloseKeepsLive(d);
      if d.parser.phase == Complete { ResumeKeepsLive(d.(parser := StartNext(d.parser))); }
    }
  }

  lemma NotUpgraded(c: Conn)
    requires SoundFor(c, c.parser) && c.current.Some?
    ensures !c.upgraded && c.current.value == |c.exchanges| - 1
  {
  }

  /** Acting on events touches only the exchanges and what says which is in progress. */
  predicate OnlyFed(c: Conn, d: Conn) {
    && d.cfg == c.cfg && d.parser == c.parser && d.ended == c.ended && d.shouldExit == c.shouldExit
    && d.readPaused == c.readPaused && d.transport == c.transport && d.wire == c.wire
    && d.received == c.received && d.framed == c.framed
  }

  lemma EventOnlyFeeds(c: Conn, e: Event)
    requires Indexed(c)
    ensures OnlyFed(c, OnEvent(c, e)) && OnEvent(c, e).seen == c.seen + [e]
  {
    hide IsUpgrade, Act, Enabled;
  }

  lemma {:induction false} EventsOnlyFeed(c: Conn, events: seq<Event>)
    requires Indexed(c)
    ensures OnlyFed(c, OnEvents(c, events))
    decreases |events|
  {
    if events != [] {
      EventOnlyFeeds(c, events[0]);
      hide OnEvent;
      EventsOnlyFeed(OnEvent(c, events[0]), events[1..]);
    }
  }

  // -- the application's steps ------------------------------------------------------------

  predicate FromApplication(a: Action) { !a.FeedBody? && !a.FeedEom? }

  lemma ActKeepsRequest(x: Exchange, a: Action)
    requires Enabled(x, a) && FromApplication(a)
    ensures Act(x, a).cycle.bodyComplete == x.cycle.bodyComplete
    ensures !a.Wake? ==> Act(x, a).cycle.body == x.cycle.body
    ensures !a.CallSend? ==>
              Act(x, a).cycle.responseComplete == x.cycle.responseComplete
    ensures a.Wake? || a.OnDisconnect? ==> Act(x, a).outputs == x.outputs
  {
    match a
    case CallSend(m, shouldClose) =>
      SendKeepsRequest(x, m, shouldClose);
      hide Send, BeginReceive, Poll;
    case CallReceive => hide Send, Poll;
    case _ => hide Send, BeginReceive;
  }

  lemma SendKeepsRequest(x: Exchange, m: SendMessage, shouldClose: bool)
    ensures var s := Send(x.cycle, m, shouldClose);
            s.Sent? ==> s.next.bodyComplete == x.cycle.bodyComplete && s.next.body == x.cycle.body
  {
    assert Send(x.cycle, m, shouldClose).Sent? ==> SameRequest(x.cycle, Send(x.cycle, m, shouldClose).next);
    hide Send;
  }

  /** Everything but the wire and the pause, over one step of an exchange. */
  predicate StepFrame(c: Conn, d: Conn) {
    && d.cfg == c.cfg && d.parser == c.parser && d.current == c.current && d.upgraded == c.upgraded
    && d.ended == c.ended && d.readPaused == c.readPaused && d.transport == c.transport
    && |d.exchanges| == |c.exchanges|
    && forall j :: 0 <= j < |c.exchanges| ==> d.exchanges[j].cycle.bodyComplete == c.exchanges[j].cycle.bodyComplete
  }

  lemma StepIsFramed(c: Conn, i: nat, a: Action, outputs: seq<Output>)
    requires i < |c.exchanges| && FromApplication(a)
    ensures StepFrame(c, Put(StepExchange(c, i, a), i, outputs)) && StepFrame(c, StepExchange(c, i, a))
  {
    hide Act, Enabled, FromApplication, Put, StepExchange;
    ExchangeIsFramed(c, i, a);
    PutIsFramed(c, StepExchange(c, i, a), i, outputs);
  }

  lemma ExchangeIsFramed(c: Conn, i: nat, a: Action)
    requires i < |c.exchanges| && FromApplication(a)
    ensures StepFrame(c, StepExchange(c, i, a))
  {
    hide Act, Enabled, FromApplication;
    if Enabled(c.exchanges[i], a) { ActKeepsRequest(c.exchanges[i], a); }
  }

  lemma PutIsFramed(c: Conn, d: Conn, i: nat, outputs: seq<Output>)
    requires StepFrame(c, d)
    ensures StepFrame(c, Put(d, i, outputs))
  {
  }

  lemma FrameKeepsSteady(c: Conn, d: Conn)
    requires SoundFor(c, c.parser) && StepFrame(c, d) && WireSound(d)
    ensures SteadyFor(d, d.parser)
  {
    hide WireSound;
  }

  predicate SameBodies(c: Conn, d: Conn)
    requires Indexed(c)
  {
    c.current.Some? ==>
      && c.current.value < |d.exchanges|
      && d.exchanges[c.current.value].cycle.body == c.exchanges[c.current.value].cycle.body
  }

  lemma SteadyKeepsSound(c: Conn, d: Conn)
    requires SoundFor(c, c.parser) && StepFrame(c, d) && WireSound(d) && SameBodies(c, d)
    ensures SoundFor(d, d.parser)
  {
    FrameKeepsSteady(c, d);
    hide WireSound;
  }

  lemma ReceiveKeepsLive(c: Conn, i: nat)
    requires Live(c) && i < |c.exchanges|
    ensures Live(Receive(c, i))
  {
    hide WireSound;
    var outputs := BeginReceive(c.exchanges[i].cycle).outputs;
    WritingStepKeepsWire(c, i, CallReceive, outputs);
    StepIsFramed(c, i, CallReceive, outputs);
    ActKeepsRequest(c.exchanges[i], CallReceive);
    SteadyKeepsSound(c, Receive(c, i));
  }

  lemma DisconnectKeepsLive(c: Conn)
    requires Live(c)
    ensures Live(Disconnect(c))
  {
    hide WireSound, Act;
    if c.current.Some? {
      var i := c.current.value;
      ActKeepsRequest(c.exchanges[i], OnDisconnect);
      QuietStepKeepsWire(c, i, OnDisconnect);
      StepIsFramed(c, i, OnDisconnect, []);
      SteadyKeepsSound(c, Disconnect(c));
    }
  }

  lemma WakeTakesBody(x: Exchange, w: Waiting)
    requires Enabled(x, Wake(w))
    ensures Act(x, Wake(w)).cycle.body == if DeliversBody(x, w) then [] else x.cycle.body
  {
  }

  lemma WakeKeepsLive(c: Conn, i: nat, w: Waiting)
    requires Live(c) && i < |c.exchanges| && Enabled(c.exchanges[i], Wake(w))
    ensures Live(WakeUp(c, i, w))
  {
    hide WireSound, Act, DeliversBody;
    var d := StepExchange(c, i, Wake(w));
    ActKeepsRequest(c.exchanges[i], Wake(w));
    QuietStepKeepsWire(c, i, Wake(w));
    StepIsFramed(c, i, Wake(w), []);
    WakeTakesBody(c.exchanges[i], w);
    if DeliversBody(c.exchanges[i], w) {
      FrameKeepsSteady(c, d);
      MaybeResumeKeepsSound(d, d.parser);
    } else {
      SteadyKeepsSound(c, d);
    }
  }

  lemma SendIs(x: Exchange, m: SendMessage, shouldClose: bool)
    requires Send(x.cycle, m, shouldClose).Sent?
    ensures var s, y := Send(x.cycle, m, shouldClose), Act(x, CallSend(m, shouldClose));
            y.cycle == s.next && y.outputs == x.outputs + s.outputs
  {
    hide Send;
  }

  predicate Finishes(c: Cycle, m: SendMessage, shouldClose: bool) {
    Send(c, m, shouldClose).Sent? && Send(c, m, shouldClose).next.responseComplete
  }

  /** After what `send` writes, before what the end of the response does. */
  lemma SentKeepsSound(c: Conn, i: nat, m: SendMessage)
    requires Live(c) && i < |c.exchanges| && Send(c.exchanges[i].cycle, m, ShouldClose(c)).Sent?
    ensures var s, a := Send(c.exchanges[i].cycle, m, ShouldClose(c)), CallSend(m, ShouldClose(c));
            var d := Put(StepExchange(c, i, a), i, s.outputs);
            && SoundFor(d, d.parser) && |d.exchanges| == |c.exchanges| && d.exchanges[i].cycle == s.next
            && ((d.current == Some(i) && s.next.responseComplete) || Unfinished(d))
  {
    hide WireSound, Act, Send;
    var s, a := Send(c.exchanges[i].cycle, m, ShouldClose(c)), CallSend(m, ShouldClose(c));
    SendIs(c.exchanges[i], m, ShouldClose(c));
    WritingStepKeepsWire(c, i, a, s.outputs);
    StepIsFramed(c, i, a, s.outputs);
    ActKeepsRequest(c.exchanges[i], a);
    SteadyKeepsSound(c, Put(StepExchange(c, i, a), i, s.outputs));
  }

  lemma RespondKeepsLive(c: Conn, i: nat, m: SendMessage)
    requires Live(c) && i < |c.exchanges|
    ensures Live(Respond(c, i, m))
    ensures |Respond(c, i, m).exchanges| >= |c.exchanges|
    ensures Finishes(c.exchanges[i].cycle, m, ShouldClose(c)) ==> Respond(c, i, m).current != Some(i)
  {
    var s, a := Send(c.exchanges[i].cycle, m, ShouldClose(c)), CallSend(m, ShouldClose(c));
    hide WireSound, Act, Send, OnResponseComplete, SoundFor, StepExchange, Put;
    if s.Sent? {
      SentKeepsSound(c, i, m);
      if s.next.responseComplete { CompleteKeepsLive(Put(StepExchange(c, i, a), i, s.outputs), i); }
    }
  }

  lemma AppErrorKeepsLive(c: Conn, i: nat)
    requires Live(c) && i < |c.exchanges|
    ensures Live(OnAppError(c, i)) && OnAppError(c, i).current != Some(i) && OnAppError(c, i).exchanges == c.exchanges
  {
    hide SoundFor;
    if c.current == Some(i) {
      AbandonKeepsLive(c, 500);
      DropKeepsLive(c);
    } else {
      FailKeepsLive(c, 500);
      CloseKeepsLive(c);
    }
  }

  lemma FinalSend(c: Cycle, shouldClose: bool)
    requires c.responseStarted && !c.responseComplete
    ensures Finishes(c, ResponseBody([], false), shouldClose)
  {
    hide BuildResponse;
  }

  lemma EndedKeepsLive(c: Conn, i: nat)
    requires Live(c) && i < |c.exchanges| && c.current != Some(i)
    ensures Live(c.(ended := c.ended + {i}))
  {
    hide InOrder;
  }

  lemma EndKeepsLive(c: Conn, i: nat, raised: bool)
    requires Live(c) && i < |c.exchanges|
    ensures Live(EndRun(c, i, raised))
  {
    hide SoundFor, Respond, OnAppError, Finishes;
    var x := c.exchanges[i].cycle;
    if raised || !x.responseStarted {
      AppErrorKeepsLive(c, i);
      EndedKeepsLive(OnAppError(c, i), i);
    } else if !x.responseComplete {
      FinalSend(x, ShouldClose(c));
      RespondKeepsLive(c, i, ResponseBody([], false));
      EndedKeepsLive(Respond(c, i, ResponseBody([], false)), i);
    } else {
      EndedKeepsLive(c, i);
    }
  }

  // -- the peer's steps and the timers --------------------------------------------------------

  lemma FeedKeepsLive(c: Conn, data: bytes)
    requires Live(c)
    ensures Live(c.(parser := Feed(c.parser, data), received := c.received + data))
    ensures Live(c.(parser := c.parser.(eof := true)))
    ensures Live(c.(closing := true)) && Live(c.(shouldExit := true)) && Live(c.(framed := c.framed + data))
  {
  }

  lemma LostKeepsLive(c: Conn)
    requires Live(c)
    ensures Live(c.(transport := Lost))
  {
    hide SoundFor;
    ShutKeepsSound(c, c.parser, c.current, Lost, []);
    assert c.wire + [] == c.wire;
  }

  lemma ActionKeepsLive(c: Conn, a: ConnAction)
    requires Live(c) && CanAct(c, a)
    ensures Live(ActOn(c, a))
  {
    hide SoundFor, Respond, EndRun, Receive, WakeUp, ResumeParsing, FailWith, CloseTransport, Disconnect, Unfinished, Enabled;
    FeedKeepsLive(c, []);
    match a
    case DataReceived(data) =>
      FeedKeepsLive(c, data);
      if !c.upgraded { ResumeKeepsLive(c.(parser := Feed(c.parser, data), received := c.received + data)); }
    case EofReceived =>
      var d := c.(parser := c.parser.(eof := true));
      FeedKeepsLive(d, []);
      CloseKeepsLive(d);
      ResumeKeepsLive(d.(closing := true));
      DisconnectKeepsLive(ResumeParsing(d.(closing := true)));
    case ConnectionLost =>
      LostKeepsLive(c);
      DisconnectKeepsLive(c.(transport := Lost));
    case IdleTimeout => CloseKeepsLive(c);
    case HeaderTimeout => FailKeepsLive(c, 408);
    case Shutdown => CloseKeepsLive(c.(closing := true));
    case ExitRequested =>
    case AppReceive(i) => ReceiveKeepsLive(c, i);
    case AppWake(i, w) => WakeKeepsLive(c, i, w);
    case AppSend(i, m) => RespondKeepsLive(c, i, m);
    case AppEnd(i, raised) => EndKeepsLive(c, i, raised);
  }

  lemma {:induction false} RunKeepsLive(start: Conn, actions: seq<ConnAction>, c: Conn)
    requires Live(start) && Reaches(start, actions, c)
    ensures Live(c)
    decreases |actions|
  {
    hide ActOn, CanAct, SoundFor, Unfinished;
    if actions != [] {
      ActionKeepsLive(start, actions[0]);
      RunKeepsLive(ActOn(start, actions[0]), actions[1..], c);
    }
  }

  lemma NewIsLive(cfg: Config)
    ensures Live(NewConn(cfg))
  {
  }

  /** The exchange in progress is the last one begun, its application still runs, its
      response is unfinished, and the parser's next event is not a request head. */
  predicate OneAtATime(c: Conn) {
    c.current.Some? ==>
      && c.current.value == |c.exchanges| - 1 && c.current.value !in c.ended
      && !c.exchanges[c.current.value].cycle.responseComplete
      && !HeadPhase(c.parser.phase) && !(StepOf(c.parser).Emit? && StepOf(c.parser).event.Head?)
      && (c.exchanges[c.current.value].cycle.bodyComplete <==> c.parser.phase == Complete)
  }

  lemma LiveIsSerial(c: Conn)
    requires Live(c)
    ensures OneAtATime(c)
  {
    hide StepOf, WireSound;
    if c.current.Some? { NoHeadInside(c.parser); }
  }

  /** In every state of every run: one exchange at a time, so no request replaces an
      unfinished one; everything on the wire is in request order; and reading is paused
      on an open connection only while there is a full buffer to hand out. */
  lemma OneExchangeAtATime(cfg: Config, actions: seq<ConnAction>, c: Conn)
    requires Reaches(NewConn(cfg), actions, c)
    ensures Indexed(c) && OneAtATime(c)
    ensures InOrder(c.wire, c.exchanges)
    ensures c.readPaused && c.transport.Open? ==> c.current.Some? && BufferedBody(c) >= cfg.highWater
    ensures cfg.highWater >= 1 && c.transport.Open? && BufferedBody(c) == 0 ==> !c.readPaused
  {
    hide StepOf, InOrder, Reaches, WireSound, OneAtATime;
    NewIsLive(cfg);
    RunKeepsLive(NewConn(cfg), actions, c);
    RunKeepsConfig(NewConn(cfg), actions, c);
    LiveIsInOrder(c);
    LiveIsSerial(c);
  }

  lemma NoHeadInside(p: Parser)
    requires !HeadPhase(p.phase) && (p.phase == Failed <==> p.error.Some?)
    ensures !(StepOf(p).Emit? && StepOf(p).event.Head?)
  {
    if p.phase != Failed {
      EmitPhases(p);
      hide StepOf;
    }
  }

  lemma LiveIsInOrder(c: Conn)
    requires Live(c)
    ensures InOrder(c.wire, c.exchanges)
  {
    if c.transport.Open? {
      SentIsInOrder(c, []);
      assert c.wire + [] == c.wire;
    }
  }

  lemma {:induction false} RunKeepsConfig(start: Conn, actions: seq<ConnAction>, c: Conn)
    requires Indexed(start) && Reaches(start, actions, c)
    ensures c.cfg == start.cfg
    decreases |actions|
  {
    hide ActOn, CanAct;
    if actions != [] { RunKeepsConfig(ActOn(start, actions[0]), actions[1..], c); }
  }
}
