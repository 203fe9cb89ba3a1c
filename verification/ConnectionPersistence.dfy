/** Which responses are followed by another on the same connection: only finished ones
    that agreed to keep it, so that a reader of the wire can tell where each ends. */
module ConnectionPersistence {
  import opened Bytes
  import opened ParserSpec
  import opened ParserChunks
  import opened ExchangeSpec
  import opened ExchangeFraming
  import opened ExchangeResults
  import opened ConnectionSpec
  import opened ConnectionSafety
  import opened ConnectionRequests

  /** Finished, and the connection was to survive it. */
  predicate Kept(x: Exchange) { x.cycle.responseComplete && x.cycle.keepAlive }

  predicate KeptBefore(exchanges: seq<Exchange>, n: int) {
    n <= |exchanges| && forall i :: 0 <= i < n ==> Kept(exchanges[i])
  }

  /** All exchanges but the last are kept, and all of them where the next request head
      is read. */
  predicate KeptFor(c: Conn, p: Parser) {
    KeptBefore(c.exchanges, if HeadPhase(p.phase) then |c.exchanges| else |c.exchanges| - 1)
  }

  lemma ActKeepsKept(x: Exchange, a: Action)
    requires Enabled(x, a) && Kept(x)
    ensures Kept(Act(x, a))
  {
    match a
    case CallSend(_, _) => hide Poll, SendBody;
    case _ => hide Send;
  }

  lemma StepKeepsKept(c: Conn, p: Parser, i: nat, a: Action)
    requires i < |c.exchanges| && KeptFor(c, p)
    ensures KeptFor(StepExchange(c, i, a), p)
  {
    hide Act;
    if Enabled(c.exchanges[i], a) && Kept(c.exchanges[i]) { ActKeepsKept(c.exchanges[i], a); }
  }

  lemma EventKeepsKept(c: Conn, p: Parser, e: Event, next: Parser)
    requires Indexed(c) && KeptFor(c, p) && p.error.None? && p.phase != Failed && p.phase != Complete
    requires StepOf(p) == Emit(e, next)
    ensures KeptFor(OnEvent(c, e), next)
  {
    EmitPhases(p);
    hide StepOf, StepExchange, IsUpgrade;
    var d := c.(seen := c.seen + [e]);
    if !e.Head? && d.current.Some? {
      StepKeepsKept(d, p, d.current.value, if e.BodyData? then FeedBody(e.data) else FeedEom);
    }
  }

  lemma {:induction false} DrainKeepsKept(c: Conn, p: Parser)
    requires SoundFor(c, p) && Unfinished(c) && KeptFor(c, p)
    ensures var d := Drain(p, false); KeptFor(OnEvents(c, d.events), d.next)
    decreases |p.buffer|, Rank(p.phase)
  {
    if p.error.None? && p.phase != Complete {
      NotFailed(c, p);
      EmitPhases(p);
      hide StepOf, SoundFor, OnEvent, Unfinished;
      match StepOf(p)
      case Again(next) =>
        PhaseChangeTracked(c, p, next);
        DrainKeepsKept(c, next);
      case Emit(e, next) =>
        EventKeepsSound(c, p, e, next);
        EventKeepsKept(c, p, e, next);
        hide KeptFor;
        DrainKeepsKept(OnEvent(c, e), next);
        assert ([e] + Drain(next, false).events)[1..] == Drain(next, false).events;
      case _ =>
    }
  }

  ghost predicate Persists(c: Conn) { KeptFor(c, c.parser) }

  lemma SameExchangesPersist(c: Conn, d: Conn)
    requires Persists(c) && d.exchanges == c.exchanges && d.parser == c.parser
    ensures Persists(d)
  {
  }

  lemma EndingsPersist(c: Conn, status: int)
    requires Indexed(c) && Persists(c)
    ensures Persists(CloseTransport(c)) && Persists(FailWith(c, status)) && Persists(c.(current := None))
    ensures Persists(UpdateReadPause(c)) && Persists(MaybeResumeReading(c))
  {
    hide Persists;
    SameExchangesPersist(c, CloseTransport(c));
    SameExchangesPersist(c, FailWith(c, status));
    SameExchangesPersist(c, c.(current := None));
    SameExchangesPersist(c, UpdateReadPause(c));
    SameExchangesPersist(c, MaybeResumeReading(c));
  }

  lemma ResumePersists(c: Conn)
    requires Live(c) && Persists(c)
    ensures Persists(ResumeParsing(c))
  {
    hide Drain, WireSound, OnEvents, FailWith, UpdateReadPause, KeptBefore;
    if !c.transport.Lost? {
      var d := Drain(c.parser, false);
      var c' := c.(parser := d.next);
      OtherParser(c, c.parser, d.next);
      DrainKeepsKept(c', c.parser);
      EventsOnlyFeed(c', d.events);
      EndingsPersist(OnEvents(c', d.events), if d.next.error.Some? then d.next.error.value.Status() else 0);
    }
  }

  /** The next message starts only behind a response that is kept. */
  lemma NextPersists(c: Conn, i: nat)
    requires Persists(c) && i == |c.exchanges| - 1 && Kept(c.exchanges[i]) && c.parser.phase == Complete
    ensures Persists(c.(parser := StartNext(c.parser)))
  {
  }

  lemma CompletePersists(c: Conn, i: nat)
    requires SoundFor(c, c.parser) && Persists(c) && i < |c.exchanges| && c.exchanges[i].cycle.responseComplete
    ensures Persists(OnResponseComplete(c, i))
  {
    if c.current == Some(i) {
      NotUpgraded(c);
      BetweenIsLive(c, i);
      hide SoundFor, ResumeParsing, Persists;
      var d := MaybeResumeReading(c.(current := None));
      SameExchangesPersist(c, d);
      SameExchangesPersist(c, CloseTransport(d));
      if d.parser.phase == Complete && d.exchanges[i].cycle.keepAlive {
        NextPersists(d, i);
        ResumePersists(d.(parser := StartNext(d.parser)));
      }
    }
  }

  lemma RespondPersists(c: Conn, i: nat, m: SendMessage)
    requires Live(c) && Persists(c) && i < |c.exchanges|
    ensures Persists(Respond(c, i, m))
  {
    var s, a := Send(c.exchanges[i].cycle, m, ShouldClose(c)), CallSend(m, ShouldClose(c));
    hide SoundFor, Act, Send, OnResponseComplete, Enabled;
    if s.Sent? {
      SentKeepsSound(c, i, m);
      StepKeepsKept(c, c.parser, i, a);
      var d := Put(StepExchange(c, i, a), i, s.outputs);
      assert Persists(d);
      if s.next.responseComplete { CompletePersists(d, i); }
    }
  }

  lemma ErrorPersists(c: Conn, i: nat)
    requires Indexed(c) && Persists(c) && i < |c.exchanges|
    ensures Persists(OnAppError(c, i))
  {
    hide Persists, FailWith, CloseTransport;
    EndingsPersist(c, 500);
    EndingsPersist(c.(current := None), 500);
  }

  lemma EndPersists(c: Conn, i: nat, raised: bool)
    requires Live(c) && Persists(c) && i < |c.exchanges|
    ensures Persists(EndRun(c, i, raised))
  {
    hide SoundFor, Respond, OnAppError, Persists;
    RespondPersists(c, i, ResponseBody([], false));
    ErrorPersists(c, i);
    var x := c.exchanges[i].cycle;
    var d := if raised || !x.responseStarted then OnAppError(c, i)
             else if !x.responseComplete then Respond(c, i, ResponseBody([], false)) else c;
    SameExchangesPersist(d, EndRun(c, i, raised));
  }

  lemma AppStepsPersist(c: Conn, i: nat, w: Waiting)
    requires Indexed(c) && Persists(c) && i < |c.exchanges|
    ensures Persists(Receive(c, i)) && Persists(WakeUp(c, i, w))
  {
    StepKeepsKept(c, c.parser, i, CallReceive);
    StepKeepsKept(c, c.parser, i, Wake(w));
    hide Act, Enabled, DeliversBody, KeptFor;
    SameExchangesPersist(StepExchange(c, i, CallReceive), Receive(c, i));
    SameExchangesPersist(StepExchange(c, i, Wake(w)), WakeUp(c, i, w));
  }

  lemma DisconnectPersists(c: Conn)
    requires Indexed(c) && Persists(c)
    ensures Persists(Disconnect(c))
  {
    if c.current.Some? { StepKeepsKept(c, c.parser, c.current.value, OnDisconnect); }
    hide Act;
  }

  lemma OtherStepsPersist(c: Conn, a: ConnAction)
    requires Live(c) && Persists(c) && CanAct(c, a)
    requires a.ConnectionLost? || a.IdleTimeout? || a.HeaderTimeout? || a.Shutdown? || a.ExitRequested?
    ensures Persists(ActOn(c, a))
  {
    hide SoundFor, Disconnect, FailWith, CloseTransport;
    EndingsPersist(c, 408);
    EndingsPersist(c.(closing := true), 0);
    DisconnectPersists(c.(transport := Lost));
  }

  lemma ActionPersists(c: Conn, a: ConnAction)
    requires Live(c) && Persists(c) && CanAct(c, a)
    ensures Persists(ActOn(c, a))
  {
    hide SoundFor, Respond, EndRun, Receive, WakeUp, ResumeParsing, Disconnect, Unfinished, Enabled;
    match a
    case DataReceived(data) =>
      FeedKeepsLive(c, data);
      SameExchangesPersist(c, c.(framed := c.framed + data));
      if !c.upgraded { ResumePersists(c.(parser := Feed(c.parser, data), received := c.received + data)); }
    case EofReceived =>
      var d := c.(parser := c.parser.(eof := true));
      FeedKeepsLive(c, []);
      FeedKeepsLive(d, []);
      EndingsPersist(d, 0);
      ResumePersists(d.(closing := true));
      DisconnectPersists(ResumeParsing(d.(closing := true)));
    case AppReceive(i) => AppStepsPersist(c, i, Returns);
    case AppWake(i, w) => AppStepsPersist(c, i, w);
    case AppSend(i, m) => RespondPersists(c, i, m);
    case AppEnd(i, raised) => EndPersists(c, i, raised);
    case _ => OtherStepsPersist(c, a);
  }

  lemma {:induction false} RunPersists(start: Conn, actions: seq<ConnAction>, c: Conn)
    requires Live(start) && Persists(start) && Reaches(start, actions, c)
    ensures Persists(c)
    decreases |actions|
  {
    hide ActOn, CanAct, SoundFor, Unfinished, Persists;
    if actions != [] {
      ActionKeepsLive(start, actions[0]);
      ActionPersists(start, actions[0]);
      RunPersists(ActOn(start, actions[0]), actions[1..], c);
    }
  }

  /** In every run, a response with another exchange behind it is finished, promised to
      keep the connection, and delimits itself; if its length was the server's and no
      interim response came late, a reader following section 6.3 of RFC 9112 recovers
      exactly its bodies and leaves what follows alone. */
  lemma PipelinedResponsesAreSeparable(cfg: Config, actions: seq<ConnAction>, c: Conn, i: nat, limits: Limits)
    requires cfg.limits.maxRequestLine >= 1 && Reaches(NewConn(cfg), actions, c) && i < |c.exchanges| - 1
    ensures var x := c.exchanges[i];
            && x.cycle.responseComplete
            && (x.cycle.status >= 200 ==>
                  && HeadAt(x.outputs).Some? && !SaysClose(HeadOf(x)) && SelfDelimiting(x.cycle.head.verb, HeadOf(x))
                  && (!HasField(x.cycle.headers, CONTENT_LENGTH) && x.late.None? && RoomToRead(limits) && ChunkLengthsFit(x.bodies)
                      ==> ReadsBack(limits, x)))
  {
    hide Reaches, SoundFor, Matches, Reachable, ReadsBack, SelfDelimiting, Faithful;
    var x := c.exchanges[i];
    NewIsLive(cfg);
    NewIsMatched(cfg);
    RunPersists(NewConn(cfg), actions, c);
    RunKeepsMatched(NewConn(cfg), actions, c);
    assert Kept(x) && Lived(x);
    var head: RequestHead, steps: seq<Action> :| Reachable(NewExchange(head), steps, x);
    if x.cycle.status >= 200 { KeptIsSeparable(head, steps, x, limits); }
  }

  lemma KeptIsSeparable(head: RequestHead, steps: seq<Action>, x: Exchange, limits: Limits)
    requires Reachable(NewExchange(head), steps, x) && Kept(x) && x.cycle.status >= 200
    ensures HeadAt(x.outputs).Some? && !SaysClose(HeadOf(x)) && SelfDelimiting(x.cycle.head.verb, HeadOf(x))
    ensures !HasField(x.cycle.headers, CONTENT_LENGTH) && x.late.None? && RoomToRead(limits) && ChunkLengthsFit(x.bodies)
            ==> ReadsBack(limits, x)
  {
    CompletedHasHead(head, steps, x);
    hide Reachable, ReadsBack, SelfDelimiting, HasField;
    RunKeepsHead(NewExchange(head), steps, x);
    PersistentHeadsDelimit(head, steps, x);
    if !HasField(x.cycle.headers, CONTENT_LENGTH) && RoomToRead(limits) && ChunkLengthsFit(x.bodies) {
      FramingIsFaithfulIff(head, steps, x, limits);
    }
  }

  lemma CompletedHasHead(head: RequestHead, steps: seq<Action>, x: Exchange)
    requires Reachable(NewExchange(head), steps, x) && x.cycle.responseComplete
    ensures x.cycle.headWritten
  {
    NewIsFramed(head);
    RunKeepsFramed(NewExchange(head), steps, x);
    hide StreamOf, WireBody, HeadFits;
  }
}
