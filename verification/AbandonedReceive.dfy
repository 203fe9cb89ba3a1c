/** A `receive` call that waits for body bytes is woken by the connection only through
    the exchange in progress. Exactly when its exchange is no longer that one, nothing
    that can still happen wakes it, the loss of the connection included. A call that
    waits for the end can always be woken. */
module AbandonedReceive {
  import opened Bytes
  import opened ParserSpec
  import opened ExchangeSpec
  import opened ConnectionSpec
  import opened ConnectionSafety
  import opened LateSteps

  /** A call waits for body bytes, and what it waits for has not happened. */
  predicate Stalled(x: Exchange) {
    ForBody in x.calls && x.cycle.body == [] && !x.cycle.bodyComplete && !x.cycle.disconnected
  }

  /** The application of exchange `i` runs, and one of its calls waits for body bytes. */
  predicate WaitsForBody(c: Conn, i: nat) {
    && i < |c.exchanges| && i !in c.ended
    && ForBody in c.exchanges[i].calls && Poll(c.exchanges[i].cycle, ForBody).StillWaiting?
  }

  /** Something that can still happen lets a call that waits like this return. */
  ghost predicate CanBeWoken(c: Conn, i: nat, w: Waiting)
    requires Indexed(c)
  {
    exists actions: seq<ConnAction>, d: Conn :: Reaches(c, actions, d) && CanAct(d, AppWake(i, w))
  }

  lemma WaitingIsStalled(x: Exchange)
    ensures ForBody in x.calls && Poll(x.cycle, ForBody).StillWaiting? <==> Stalled(x)
  {
  }

  // -- an exchange that is no longer the one in progress --------------------------------

  lemma StepKeepsStalled(x: Exchange, a: Action)
    requires Stalled(x) && Enabled(x, a) && FromApplication(a) && !a.OnDisconnect?
    ensures Stalled(Act(x, a))
  {
    match a
    case CallSend(m, shouldClose) => SendStalls(x, m, shouldClose);
    case _ => hide Send;
  }

  /** Sending and waiting do not meet. */
  lemma SendStalls(x: Exchange, m: SendMessage, shouldClose: bool)
    ensures var y := Act(x, CallSend(m, shouldClose)); y.calls == x.calls && (Stalled(y) <==> Stalled(x))
  {
    assert Send(x.cycle, m, shouldClose).Sent? ==> SameRequest(x.cycle, Send(x.cycle, m, shouldClose).next);
    hide Send;
  }

  lemma OwnStepKeepsStalled(c: Conn, x: Exchange, a: ConnAction)
    requires Stalled(x)
    ensures Stalled(OwnStep(c, x, a))
  {
    hide Act, Stalled;
    match a
    case AppReceive(_) => StepKeepsStalled(x, CallReceive);
    case AppWake(_, w) => if Enabled(x, Wake(w)) { StepKeepsStalled(x, Wake(w)); }
    case AppSend(_, m) => StepKeepsStalled(x, CallSend(m, ShouldClose(c)));
    case AppEnd(_, _) => StepKeepsStalled(x, CallSend(ResponseBody([], false), ShouldClose(c)));
    case _ =>
  }

  lemma ActionKeepsStalled(c: Conn, a: ConnAction, i: nat)
    requires CanAct(c, a) && IsPast(c, i) && Stalled(c.exchanges[i])
    ensures IsPast(ActOn(c, a), i) && Stalled(ActOn(c, a).exchanges[i])
  {
    hide ActOn, CanAct, Settled, Stalled, OwnStep;
    if IsStepOf(a, i) {
      OwnStepIs(c, a, i);
      OwnStepKeepsStalled(c, c.exchanges[i], a);
    } else {
      OthersLeave(c, a, i);
    }
  }

  /** Whatever the peer, the timers and the applications do, the call goes on waiting. */
  lemma {:induction false} NothingWakesIt(c: Conn, actions: seq<ConnAction>, d: Conn, i: nat)
    requires IsPast(c, i) && Stalled(c.exchanges[i]) && Reaches(c, actions, d)
    ensures IsPast(d, i) && Stalled(d.exchanges[i]) && !CanAct(d, AppWake(i, ForBody))
    decreases |actions|
  {
    if actions == [] {
      WaitingIsStalled(c.exchanges[i]);
    } else {
      ActionKeepsStalled(c, actions[0], i);
      hide ActOn, CanAct, Stalled;
      NothingWakesIt(ActOn(c, actions[0]), actions[1..], d, i);
    }
  }

  // -- the exchange in progress hears of the loss ------------------------------------------

  predicate Heard(c: Conn) {
    Indexed(c) && (c.transport.Lost? && c.current.Some? ==> c.exchanges[c.current.value].cycle.disconnected)
  }

  /** Only the loss of the connection loses it. */
  predicate SameLoss(c: Conn, d: Conn) { d.transport.Lost? <==> c.transport.Lost? }

  lemma ResumeKeepsLoss(c: Conn)
    requires Indexed(c)
    ensures SameLoss(c, ResumeParsing(c)) && (c.transport.Lost? ==> ResumeParsing(c) == c)
  {
    hide Drain, OnEvents;
    var d := Drain(c.parser, false);
    EventsOnlyFeed(c.(parser := d.next), d.events);
  }

  lemma CompleteKeepsHeard(c: Conn, i: nat)
    requires Heard(c) && i < |c.exchanges|
    ensures Heard(OnResponseComplete(c, i))
  {
    hide ResumeParsing;
    if c.current == Some(i) {
      var d := MaybeResumeReading(c.(current := None));
      if d.parser.phase == Complete { ResumeKeepsLoss(d.(parser := StartNext(d.parser))); }
    }
  }

  lemma StepKeepsHeard(c: Conn, i: nat, a: Action, outputs: seq<Output>)
    requires Heard(c) && i < |c.exchanges| && FromApplication(a)
    ensures Heard(Put(StepExchange(c, i, a), i, outputs)) && Heard(StepExchange(c, i, a))
  {
    hide Act, Enabled;
    if Enabled(c.exchanges[i], a) { StepKeepsDisconnected(c.exchanges[i], a); }
  }

  lemma StepKeepsDisconnected(x: Exchange, a: Action)
    requires Enabled(x, a) && FromApplication(a)
    ensures x.cycle.disconnected ==> Act(x, a).cycle.disconnected
  {
    match a
    case CallSend(m, shouldClose) =>
      assert Send(x.cycle, m, shouldClose).Sent? ==> SameRequest(x.cycle, Send(x.cycle, m, shouldClose).next);
      hide Send;
    case _ => hide Send;
  }

  lemma RespondKeepsHeard(c: Conn, i: nat, m: SendMessage)
    requires Heard(c) && i < |c.exchanges|
    ensures Heard(Respond(c, i, m))
  {
    hide Send, OnResponseComplete, Act, Enabled, Heard;
    var s, a := Send(c.exchanges[i].cycle, m, ShouldClose(c)), CallSend(m, ShouldClose(c));
    if s.Sent? {
      StepKeepsHeard(c, i, a, s.outputs);
      CompleteKeepsHeard(Put(StepExchange(c, i, a), i, s.outputs), i);
    }
  }

  lemma EndKeepsHeard(c: Conn, i: nat, raised: bool)
    requires Heard(c) && i < |c.exchanges|
    ensures Heard(EndRun(c, i, raised))
  {
    assert Indexed(c);
    hide Respond, OnAppError, Heard;
    RespondKeepsHeard(c, i, ResponseBody([], false));
    ErrorKeepsHeard(c, i);
    var x := c.exchanges[i].cycle;
    var d := if raised || !x.responseStarted then OnAppError(c, i)
             else if !x.responseComplete then Respond(c, i, ResponseBody([], false)) else c;
    EndedKeepsHeard(d, d.ended + {i});
  }

  lemma ErrorKeepsHeard(c: Conn, i: nat)
    requires Heard(c) && i < |c.exchanges|
    ensures Heard(OnAppError(c, i))
  {
  }

  lemma EndedKeepsHeard(c: Conn, ended: set<nat>)
    requires Heard(c)
    ensures Heard(c.(ended := ended))
  {
  }

  lemma AppStepsKeepHeard(c: Conn, i: nat, w: Waiting)
    requires Heard(c) && i < |c.exchanges|
    ensures Heard(Receive(c, i)) && Heard(WakeUp(c, i, w))
  {
    hide Act, Enabled, BeginReceive, DeliversBody;
    StepKeepsHeard(c, i, CallReceive, BeginReceive(c.exchanges[i].cycle).outputs);
    StepKeepsHeard(c, i, Wake(w), []);
  }

  lemma PeerStepsKeepHeard(c: Conn, a: ConnAction)
    requires Heard(c) && CanAct(c, a) && (a.DataReceived? || a.EofReceived?)
    ensures Heard(ActOn(c, a))
  {
    hide ResumeParsing, Act, Enabled;
    match a
    case DataReceived(data) => ResumeKeepsLoss(c.(parser := Feed(c.parser, data), received := c.received + data));
    case EofReceived => ResumeKeepsLoss(c.(parser := c.parser.(eof := true), closing := true));
  }

  lemma OtherStepsKeepHeard(c: Conn, a: ConnAction)
    requires Heard(c) && CanAct(c, a)
    requires a.ConnectionLost? || a.IdleTimeout? || a.HeaderTimeout? || a.Shutdown? || a.ExitRequested?
    ensures Heard(ActOn(c, a))
  {
  }

  lemma ActionKeepsHeard(c: Conn, a: ConnAction)
    requires Heard(c) && CanAct(c, a)
    ensures Heard(ActOn(c, a))
  {
    hide Heard, ResumeParsing, Respond, EndRun, Receive, WakeUp, Act, Enabled, FailWith;
    match a
    case DataReceived(_) => PeerStepsKeepHeard(c, a);
    case EofReceived => PeerStepsKeepHeard(c, a);
    case AppReceive(i) => AppStepsKeepHeard(c, i, Returns);
    case AppWake(i, w) => AppStepsKeepHeard(c, i, w);
    case AppSend(i, m) => RespondKeepsHeard(c, i, m);
    case AppEnd(i, raised) => EndKeepsHeard(c, i, raised);
    case _ => OtherStepsKeepHeard(c, a);
  }

  lemma {:induction false} RunKeepsHeard(start: Conn, actions: seq<ConnAction>, c: Conn)
    requires Heard(start) && Reaches(start, actions, c)
    ensures Heard(c)
    decreases |actions|
  {
    assert Indexed(start);
    hide ActOn, CanAct, Heard;
    if actions != [] {
      ActionKeepsHeard(start, actions[0]);
      RunKeepsHeard(ActOn(start, actions[0]), actions[1..], c);
    }
  }

  // -- who can be woken -------------------------------------------------------------------

  /** In every state that a run reaches: a call waiting for body bytes can still be woken
      if and only if its exchange is the one in progress. */
  lemma WokenIff(cfg: Config, actions: seq<ConnAction>, c: Conn, i: nat)
    requires Reaches(NewConn(cfg), actions, c) && WaitsForBody(c, i)
    ensures Indexed(c) && (CanBeWoken(c, i, ForBody) <==> c.current == Some(i))
  {
    NewIsLive(cfg);
    RunKeepsLive(NewConn(cfg), actions, c);
    RunKeepsHeard(NewConn(cfg), actions, c);
    hide Reaches, SoundFor, Unfinished;
    WaitingIsStalled(c.exchanges[i]);
    if c.current == Some(i) {
      LossWakes(c, i, ForBody);
    } else if CanBeWoken(c, i, ForBody) {
      var more, d :| Reaches(c, more, d) && CanAct(d, AppWake(i, ForBody));
      NothingWakesIt(c, more, d, i);
    }
  }

  /** The loss of the connection is one thing that wakes a call, if its exchange is the one
      in progress. */
  lemma LossWakes(c: Conn, i: nat, w: Waiting)
    requires Heard(c) && c.current == Some(i) && i !in c.ended && w in c.exchanges[i].calls
    requires Poll(c.exchanges[i].cycle, w).StillWaiting?
    ensures CanBeWoken(c, i, w)
  {
    var d := ActOn(c, ConnectionLost);
    assert d.exchanges[i] == Act(c.exchanges[i], OnDisconnect);
    assert CanAct(d, AppWake(i, w));
    hide ActOn, CanAct;
    assert [ConnectionLost][1..] == [];
    assert Reaches(d, [], d);
    assert Reaches(c, [ConnectionLost], d);
  }

  // -- a call that waits for the end -----------------------------------------------------------

  lemma OneStepWakes(c: Conn, a: ConnAction, i: nat, w: Waiting)
    requires Indexed(c) && CanAct(c, a) && CanBeWoken(ActOn(c, a), i, w)
    ensures CanBeWoken(c, i, w)
  {
    hide ActOn, CanAct;
    var more, d :| Reaches(ActOn(c, a), more, d) && CanAct(d, AppWake(i, w));
    assert ([a] + more)[1..] == more;
    assert Reaches(c, [a] + more, d);
  }

  lemma NowWakes(c: Conn, i: nat, w: Waiting)
    requires Indexed(c) && CanAct(c, AppWake(i, w))
    ensures CanBeWoken(c, i, w)
  {
    hide ActOn, CanAct;
    assert Reaches(c, [], c);
  }

  /** The application, whose `send` does nothing to the connection any more, still
      completes the response in the eyes of its exchange. */
  lemma FinalSendWakes(c: Conn, i: nat)
    requires IsPast(c, i) && i !in c.ended && ForEnd in c.exchanges[i].calls
    requires c.exchanges[i].cycle.responseStarted && !c.exchanges[i].cycle.responseComplete
    ensures CanBeWoken(c, i, ForEnd)
  {
    var m := ResponseBody([], false);
    var a := AppSend(i, m);
    OwnStepIs(c, a, i);
    SendFinishesIff(c.exchanges[i].cycle, m, ShouldClose(c));
    SendIs(c.exchanges[i], m, ShouldClose(c));
    SendStalls(c.exchanges[i], m, ShouldClose(c));
    hide ActOn, Act, Send, Settled, Stalled;
    NowWakes(ActOn(c, a), i, ForEnd);
    OneStepWakes(c, a, i, ForEnd);
  }

  lemma StartWakes(c: Conn, i: nat)
    requires IsPast(c, i) && i !in c.ended && ForEnd in c.exchanges[i].calls
    requires !c.exchanges[i].cycle.responseStarted && !c.exchanges[i].cycle.responseComplete
    ensures CanBeWoken(c, i, ForEnd)
  {
    var m := ResponseStart(200, []);
    var a := AppSend(i, m);
    OwnStepIs(c, a, i);
    StartStarts(c.exchanges[i], m, ShouldClose(c));
    hide ActOn, Act, Send, Settled, CanBeWoken;
    FinalSendWakes(ActOn(c, a), i);
    OneStepWakes(c, a, i, ForEnd);
  }

  lemma StartStarts(x: Exchange, m: SendMessage, shouldClose: bool)
    requires m.ResponseStart? && !x.cycle.responseStarted && !x.cycle.responseComplete
    ensures var y := Act(x, CallSend(m, shouldClose)); y.cycle.responseStarted && !y.cycle.responseComplete && y.calls == x.calls
  {
  }

  /** In every state that a run reaches: a call that waits for the end, of an application
      that runs, can be woken. */
  lemma EndCanAlwaysBeTold(cfg: Config, actions: seq<ConnAction>, c: Conn, i: nat)
    requires Reaches(NewConn(cfg), actions, c) && i < |c.exchanges| && i !in c.ended && ForEnd in c.exchanges[i].calls
    ensures Indexed(c) && CanBeWoken(c, i, ForEnd)
  {
    RunSettles(cfg, actions, c);
    RunKeepsHeard(NewConn(cfg), actions, c);
    assert Indexed(c);
    hide Reaches, Live, Settled, CanBeWoken;
    var x := c.exchanges[i].cycle;
    if Poll(x, ForEnd).Delivered? { NowWakes(c, i, ForEnd); }
    else if c.current == Some(i) { LossWakes(c, i, ForEnd); }
    else if x.responseStarted { FinalSendWakes(c, i); }
    else { StartWakes(c, i); }
  }

  // -- how a waiting call is abandoned ---------------------------------------------------------

  predicate IsAbandoned(c: Conn, i: nat) { WaitsForBody(c, i) && c.current != Some(i) }

  /** What `send` makes of the exchange in progress. */
  lemma RespondIs(c: Conn, i: nat, m: SendMessage)
    requires Indexed(c) && c.current == Some(i) && !c.exchanges[i].cycle.responseComplete
    ensures var d, x := Respond(c, i, m), c.exchanges[i];
            && i < |d.exchanges| && d.exchanges[i] == Act(x, CallSend(m, ShouldClose(c)))
            && (i in d.ended <==> i in c.ended)
            && (d.current != Some(i) <==> m.ResponseBody? && !m.more && x.cycle.responseStarted)
  {
    hide Send, Act, Enabled, OnResponseComplete, Put, StepExchange;
    var x, a := c.exchanges[i], CallSend(m, ShouldClose(c));
    SendFinishesIff(x.cycle, m, ShouldClose(c));
    SendingIsStepping(x, m, ShouldClose(c));
    var s := Send(x.cycle, m, ShouldClose(c));
    if s.Sent? {
      StepIs(c, i, a, s.outputs);
      if s.next.responseComplete { CompleteLeaves(Put(StepExchange(c, i, a), i, s.outputs), i, i); }
    }
  }

  lemma StepIs(c: Conn, i: nat, a: Action, outputs: seq<Output>)
    requires Indexed(c) && i < |c.exchanges| && Enabled(c.exchanges[i], a)
    ensures var d := Put(StepExchange(c, i, a), i, outputs);
            Indexed(d) && |d.exchanges| == |c.exchanges| && d.exchanges[i] == Act(c.exchanges[i], a)
            && d.current == c.current && d.ended == c.ended
  {
    hide Act, Enabled;
  }

  /** The last message of the response is sent while the call waits; no other message
      does it. */
  lemma FinalSendAbandonsIff(c: Conn, i: nat, m: SendMessage)
    requires Live(c) && c.current == Some(i)
    ensures IsAbandoned(Respond(c, i, m), i) <==>
            WaitsForBody(c, i) && m.ResponseBody? && !m.more && c.exchanges[i].cycle.responseStarted
  {
    TrackedPhase(c);
    hide Live, Respond, Act, Stalled, WaitsForBody;
    RespondIs(c, i, m);
    SendStalls(c.exchanges[i], m, ShouldClose(c));
    WaitsIff(c, i);
    WaitsIff(Respond(c, i, m), i);
  }

  lemma WaitsIff(c: Conn, i: nat)
    ensures WaitsForBody(c, i) <==> i < |c.exchanges| && i !in c.ended && Stalled(c.exchanges[i])
  {
  }

  lemma SendFinishesIff(c: Cycle, m: SendMessage, shouldClose: bool)
    requires !c.responseComplete
    ensures var s := Send(c, m, shouldClose);
            s.Sent? && s.next.responseComplete <==> m.ResponseBody? && !m.more && c.responseStarted
  {
  }

  /** What the step gives the parser to go on from. */
  function ParsesFrom(c: Conn, a: ConnAction): Parser
    requires a.DataReceived? || a.EofReceived?
  {
    if a.DataReceived? then Feed(c.parser, a.data) else c.parser.(eof := true)
  }

  /** The request is found to be broken, or cut off, before a byte of its body could be
      handed over and before the response has started. */
  predicate BreaksOff(c: Conn, i: nat, p: Parser)
    requires i < |c.exchanges|
  {
    && c.transport.Open? && !c.exchanges[i].cycle.responseStarted
    && Drain(p, false).next.error.Some? && Drain(p, false).events == []
  }

  /** None of the calls of the exchange waits for body bytes in vain. */
  predicate NoneStalls(c: Conn, i: nat) { i < |c.exchanges| && !Stalled(c.exchanges[i]) }

  lemma {:induction false} EventsStallNone(c: Conn, events: seq<Event>, i: nat)
    requires Indexed(c) && NoneStalls(c, i)
    ensures NoneStalls(OnEvents(c, events), i)
    decreases |events|
  {
    if events != [] {
      EventStallsNone(c, events[0], i);
      hide OnEvent, NoneStalls;
      EventsStallNone(OnEvent(c, events[0]), events[1..], i);
    }
  }

  lemma EventStallsNone(c: Conn, e: Event, i: nat)
    requires Indexed(c) && NoneStalls(c, i)
    ensures NoneStalls(OnEvent(c, e), i)
  {
    hide IsUpgrade;
  }

  /** Inside a message the next event hands body bytes, or the end, to the exchange. */
  predicate Feeds(events: seq<Event>) {
    events != [] ==> !events[0].Head? && (events[0].BodyData? ==> events[0].data != [])
  }

  lemma {:induction false} DrainFeeds(p: Parser)
    requires !HeadPhase(p.phase) && (p.phase == Failed <==> p.error.Some?)
    ensures Feeds(Drain(p, false).events)
    decreases |p.buffer|, Rank(p.phase)
  {
    if p.error.None? && p.phase != Complete {
      EmitPhases(p);
      StepEmitsBytes(p);
      hide StepOf;
      if StepOf(p).Again? { DrainFeeds(StepOf(p).next); }
    }
  }

  lemma StepEmitsBytes(p: Parser)
    ensures StepOf(p).Emit? && StepOf(p).event.BodyData? ==> StepOf(p).event.data != []
  {
    assert Keeps(p, StepOf(p));
    hide StepOf;
  }

  lemma FirstEventFeeds(c: Conn, events: seq<Event>, i: nat)
    requires Indexed(c) && c.current == Some(i) && events != [] && Feeds(events)
    ensures NoneStalls(OnEvents(c, events), i)
  {
    EventFeeds(c, events[0], i);
    hide OnEvent, NoneStalls;
    EventsStallNone(OnEvent(c, events[0]), events[1..], i);
  }

  lemma EventFeeds(c: Conn, e: Event, i: nat)
    requires Indexed(c) && c.current == Some(i) && !e.Head? && (e.BodyData? ==> e.data != [])
    ensures NoneStalls(OnEvent(c, e), i)
  {
  }

  /** What parsing on makes of the exchange in progress. */
  predicate ResumedFrom(c: Conn, d: Conn, i: nat)
    requires i < |c.exchanges|
  {
    && Indexed(d) && i < |d.exchanges| && d.ended == c.ended
    && (Stalled(d.exchanges[i]) && d.current != Some(i) <==> Stalled(c.exchanges[i]) && BreaksOff(c, i, c.parser))
  }

  lemma EventsFeedIt(c: Conn, i: nat)
    requires Live(c) && c.current == Some(i) && !c.transport.Lost? && Drain(c.parser, false).events != []
    ensures ResumedFrom(c, ResumeParsing(c), i)
  {
    var d := Drain(c.parser, false);
    TrackedPhase(c);
    DrainFeeds(c.parser);
    EventsOnlyFeed(c.(parser := d.next), d.events);
    FirstEventFeeds(c.(parser := d.next), d.events, i);
    EndingsKeepExchanges(OnEvents(c.(parser := d.next), d.events), if d.next.error.Some? then d.next.error.value.Status() else 0);
    hide Live, SoundFor, Drain, Stalled, OnEvents, FailWith, UpdateReadPause;
  }

  lemma EndingsKeepExchanges(c: Conn, status: int)
    requires Indexed(c)
    ensures var d := FailWith(c, status); d.exchanges == c.exchanges && d.ended == c.ended
    ensures var d := UpdateReadPause(c); d.exchanges == c.exchanges && d.ended == c.ended && Indexed(d)
  {
  }

  lemma NoEventsKeepIt(c: Conn, i: nat)
    requires Indexed(c) && c.current == Some(i) && !c.transport.Lost? && Drain(c.parser, false).events == []
    ensures ResumedFrom(c, ResumeParsing(c), i)
  {
    hide Drain, Stalled, OnEvent, UpdateReadPause;
    var d := Drain(c.parser, false);
    assert OnEvents(c.(parser := d.next), []) == c.(parser := d.next);
    EndingsKeepExchanges(c.(parser := d.next), 0);
    PauseKeepsCurrent(c.(parser := d.next));
  }

  lemma PauseKeepsCurrent(c: Conn)
    requires Indexed(c)
    ensures UpdateReadPause(c).current == c.current
  {
  }

  lemma ResumeAbandonsIff(c: Conn, i: nat)
    requires Live(c) && c.current == Some(i) && !c.transport.Lost?
    ensures ResumedFrom(c, ResumeParsing(c), i)
  {
    assert Indexed(c);
    hide Live, Drain, ResumeParsing, ResumedFrom;
    if Drain(c.parser, false).events != [] { EventsFeedIt(c, i); } else { NoEventsKeepIt(c, i); }
  }

  lemma TrackedPhase(c: Conn)
    requires Live(c) && c.current.Some?
    ensures !HeadPhase(c.parser.phase) && (c.parser.phase == Failed <==> c.parser.error.Some?) && !c.upgraded
    ensures Indexed(c) && c.current.value !in c.ended && !c.exchanges[c.current.value].cycle.responseComplete
  {
  }

  /** Bytes, or the end of the stream, abandon the call exactly when they break the
      request off: a malformed chunk, a body over the limit, or a missing rest. */
  lemma BreakingOffAbandonsIff(c: Conn, i: nat, a: ConnAction)
    requires Live(c) && c.current == Some(i) && CanAct(c, a) && (a.DataReceived? || a.EofReceived?)
    ensures IsAbandoned(ActOn(c, a), i) <==> WaitsForBody(c, i) && BreaksOff(c, i, ParsesFrom(c, a))
  {
    TrackedPhase(c);
    WaitsIff(c, i);
    WaitsIff(ActOn(c, a), i);
    var p := ParsesFrom(c, a);
    match a
    case DataReceived(data) =>
      FeedKeepsLive(c, data);
      hide SoundFor, Unfinished, ResumeParsing, Drain, WaitsForBody, Stalled;
      ResumeAbandonsIff(c.(parser := p, received := c.received + data), i);
    case EofReceived =>
      EofKeepsLive(c);
      hide SoundFor, Unfinished, ResumeParsing, Drain, WaitsForBody, Disconnect;
      var d := c.(parser := p, closing := true);
      ResumeAbandonsIff(d, i);
      LossAbandonsNone(ResumeParsing(d), i);
  }

  lemma EofKeepsLive(c: Conn)
    requires Live(c)
    ensures Live(c.(parser := c.parser.(eof := true), closing := true))
  {
    FeedKeepsLive(c, []);
    hide SoundFor, Unfinished;
    FeedKeepsLive(c.(parser := c.parser.(eof := true)), []);
  }

  /** The exchange in progress alone is told. */
  lemma LossAbandonsNone(c: Conn, i: nat)
    requires Indexed(c) && i < |c.exchanges|
    ensures var d := Disconnect(c);
            && d.current == c.current && d.ended == c.ended && |d.exchanges| == |c.exchanges|
            && (c.current != Some(i) ==> d.exchanges[i] == c.exchanges[i])
  {
    hide Act, Enabled;
  }

  // -- every step ------------------------------------------------------------------------------

  /** A call would join those that wait for body bytes. */
  predicate WouldWait(c: Cycle) {
    !c.responseComplete && !c.bodyFinished && c.body == [] && !c.bodyComplete && !c.disconnected
  }

  /** Behind the call that returns, with what there is of the body, another one waits. */
  predicate AnotherWaits(x: Exchange) { x.calls[ForBody] >= 2 && !x.cycle.bodyComplete && !x.cycle.disconnected }

  /** The step leaves a call of exchange `i` abandoned. In progress: the last message is
      sent, or the request breaks off. Past: it was abandoned already, or a call joins. */
  predicate Abandons(c: Conn, a: ConnAction, i: nat)
    requires i < |c.exchanges|
  {
    if c.current == Some(i) then
      && WaitsForBody(c, i)
      && match a
         case AppSend(j, m) => j == i && m.ResponseBody? && !m.more && c.exchanges[i].cycle.responseStarted
         case DataReceived(_) => BreaksOff(c, i, ParsesFrom(c, a))
         case EofReceived => BreaksOff(c, i, ParsesFrom(c, a))
         case _ => false
    else
      match a
      case AppReceive(j) => WaitsForBody(c, i) || (j == i && WouldWait(c.exchanges[i].cycle))
      case AppWake(j, w) => if j == i && w == ForBody then AnotherWaits(c.exchanges[i]) else WaitsForBody(c, i)
      case AppEnd(j, _) => j != i && WaitsForBody(c, i)
      case _ => WaitsForBody(c, i)
  }

  lemma ReceiveStalls(x: Exchange)
    ensures Stalled(Act(x, CallReceive)) <==> Stalled(x) || WouldWait(x.cycle)
  {
  }

  lemma WakeStalls(x: Exchange, w: Waiting)
    requires Enabled(x, Wake(w))
    ensures Stalled(Act(x, Wake(w))) <==> if w == ForBody then AnotherWaits(x) else Stalled(x)
  {
  }

  lemma PastAbandonsIff(c: Conn, a: ConnAction, i: nat)
    requires CanAct(c, a) && IsPast(c, i)
    ensures IsAbandoned(ActOn(c, a), i) <==> Abandons(c, a, i)
  {
    WaitsIff(c, i);
    WaitsIff(ActOn(c, a), i);
    if IsStepOf(a, i) {
      hide ActOn, Act, Enabled, Stalled, WaitsForBody, Settled, WouldWait, AnotherWaits;
      OwnStepIs(c, a, i);
      match a
      case AppReceive(_) => ReceiveStalls(c.exchanges[i]);
      case AppWake(_, w) => WakeStalls(c.exchanges[i], w);
      case AppSend(_, m) => SendStalls(c.exchanges[i], m, ShouldClose(c));
      case _ =>
    } else {
      hide ActOn, CanAct, Stalled, WaitsForBody;
      OthersLeave(c, a, i);
    }
  }

  /** The steps that leave the exchange in progress where it is. */
  lemma StaysInProgress(c: Conn, a: ConnAction, i: nat)
    requires Settled(c) && Indexed(c) && c.current == Some(i) && CanAct(c, a) && !a.DataReceived? && !a.EofReceived?
    requires !(a.AppSend? && a.i == i) && !(a.AppEnd? && a.i == i)
    ensures ActOn(c, a).current == Some(i)
  {
    hide Settled, Act, Enabled, Respond, EndRun, BeginReceive, DeliversBody;
    match a
    case AppSend(j, _) => OwnStepIs(c, a, j);
    case AppEnd(j, _) => OwnStepIs(c, a, j);
    case _ =>
  }

  lemma InProgressAbandonsIff(c: Conn, a: ConnAction, i: nat)
    requires Live(c) && Settled(c) && c.current == Some(i) && CanAct(c, a)
    ensures IsAbandoned(ActOn(c, a), i) <==> Abandons(c, a, i)
  {
    TrackedPhase(c);
    if a.DataReceived? || a.EofReceived? {
      hide Live, ActOn, WaitsForBody, Settled;
      BreakingOffAbandonsIff(c, i, a);
    } else if a.AppSend? && a.i == i {
      hide Live, Respond, WaitsForBody, Settled;
      FinalSendAbandonsIff(c, i, a.message);
    } else if a.AppEnd? && a.i == i {
      hide Live, Respond, OnAppError, Settled;
    } else {
      hide Live, ActOn, WaitsForBody, Settled;
      StaysInProgress(c, a, i);
    }
  }

  /** In every state that a run reaches, and for every step: a call of exchange `i` that
      waits for body bytes is abandoned behind it exactly when it was before and neither
      returned nor ended, when the last message of the response is sent or the request
      breaks off while it waits, or when it is made on an exchange that is already past. */
  lemma AbandonedIff(cfg: Config, actions: seq<ConnAction>, c: Conn, a: ConnAction, i: nat)
    requires Reaches(NewConn(cfg), actions, c) && CanAct(c, a) && i < |c.exchanges|
    ensures Indexed(c) && (IsAbandoned(ActOn(c, a), i) <==> Abandons(c, a, i))
  {
    RunSettles(cfg, actions, c);
    assert Indexed(c);
    hide Reaches, Live, ActOn, CanAct, Settled, Abandons, IsAbandoned;
    if c.current == Some(i) { InProgressAbandonsIff(c, a, i); } else { PastAbandonsIff(c, a, i); }
  }
}
