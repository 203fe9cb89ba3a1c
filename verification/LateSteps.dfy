/** An exchange that is no longer the one in progress: what still happens to it, and what
    the steps of its application can still do to the connection. */
module LateSteps {
  import opened Bytes
  import opened ParserSpec
  import opened ExchangeSpec
  import opened ExchangeFraming
  import opened ConnectionSpec
  import opened ConnectionSafety
  import opened ConnectionRequests
  import opened ExchangeResults

  predicate IsPast(c: Conn, i: nat) { Indexed(c) && i < |c.exchanges| && c.current != Some(i) }

  /** A step that the application of exchange `i` takes. */
  predicate IsStepOf(a: ConnAction, i: nat) {
    match a
    case AppReceive(j) => j == i
    case AppWake(j, _) => j == i
    case AppSend(j, _) => j == i
    case AppEnd(j, _) => j == i
    case _ => false
  }

  // -- the steps of others -------------------------------------------------------------

  /** Exchange `i` is past, and nothing has happened to it. */
  predicate Leaves(c: Conn, d: Conn, i: nat)
    requires i < |c.exchanges|
  {
    IsPast(d, i) && d.exchanges[i] == c.exchanges[i] && (i in d.ended <==> i in c.ended)
  }

  lemma EventLeaves(c: Conn, e: Event, i: nat)
    requires IsPast(c, i)
    ensures Leaves(c, OnEvent(c, e), i)
  {
    hide IsUpgrade, Act, Enabled;
  }

  lemma {:induction false} EventsLeave(c: Conn, events: seq<Event>, i: nat)
    requires IsPast(c, i)
    ensures Leaves(c, OnEvents(c, events), i)
    decreases |events|
  {
    if events != [] {
      EventLeaves(c, events[0], i);
      hide OnEvent;
      EventsLeave(OnEvent(c, events[0]), events[1..], i);
    }
  }

  lemma EndingsLeave(c: Conn, status: int, i: nat)
    requires IsPast(c, i)
    ensures Leaves(c, CloseTransport(c), i) && Leaves(c, FailWith(c, status), i)
    ensures Leaves(c, UpdateReadPause(c), i) && Leaves(c, MaybeResumeReading(c), i)
  {
  }

  lemma ResumeLeaves(c: Conn, i: nat)
    requires IsPast(c, i)
    ensures Leaves(c, ResumeParsing(c), i)
  {
    var d := Drain(c.parser, false);
    EventsLeave(c.(parser := d.next), d.events, i);
    var e := OnEvents(c.(parser := d.next), d.events);
    hide Drain, OnEvents, FailWith, UpdateReadPause;
    EndingsLeave(e, if d.next.error.Some? then d.next.error.value.Status() else 0, i);
  }

  /** The response of `i` itself may be the one that is complete. */
  lemma CompleteLeaves(c: Conn, j: nat, i: nat)
    requires Indexed(c) && j < |c.exchanges| && i < |c.exchanges|
    requires j != i ==> c.current != Some(i)
    ensures Leaves(c, OnResponseComplete(c, j), i)
  {
    hide ResumeParsing, MaybeResumeReading, CloseTransport;
    if c.current == Some(j) {
      var n := c.(current := None);
      var d := MaybeResumeReading(n);
      EndingsLeave(n, 0, i);
      EndingsLeave(d, 0, i);
      if d.parser.phase == Complete { ResumeLeaves(d.(parser := StartNext(d.parser)), i); }
    }
  }

  lemma StepLeaves(c: Conn, j: nat, a: Action, outputs: seq<Output>, i: nat)
    requires IsPast(c, i) && j < |c.exchanges| && j != i
    ensures Leaves(c, StepExchange(c, j, a), i) && Leaves(c, Put(StepExchange(c, j, a), j, outputs), i)
  {
    hide Act, Enabled;
  }

  lemma RespondLeaves(c: Conn, j: nat, m: SendMessage, i: nat)
    requires IsPast(c, i) && j < |c.exchanges| && j != i
    ensures Leaves(c, Respond(c, j, m), i)
  {
    hide Send, OnResponseComplete, Act, Enabled;
    var s, a := Send(c.exchanges[j].cycle, m, ShouldClose(c)), CallSend(m, ShouldClose(c));
    if s.Sent? {
      StepLeaves(c, j, a, s.outputs, i);
      CompleteLeaves(Put(StepExchange(c, j, a), j, s.outputs), j, i);
    }
  }

  lemma ErrorLeaves(c: Conn, j: nat, i: nat)
    requires IsPast(c, i) && j < |c.exchanges|
    ensures Leaves(c, OnAppError(c, j), i)
  {
    hide FailWith, CloseTransport;
    EndingsLeave(c, 500, i);
    EndingsLeave(c.(current := None), 500, i);
  }

  lemma EndLeaves(c: Conn, j: nat, raised: bool, i: nat)
    requires IsPast(c, i) && j < |c.exchanges| && j != i
    ensures Leaves(c, EndRun(c, j, raised), i)
  {
    hide Respond, OnAppError;
    RespondLeaves(c, j, ResponseBody([], false), i);
    ErrorLeaves(c, j, i);
  }

  lemma AppStepsLeave(c: Conn, j: nat, w: Waiting, i: nat)
    requires IsPast(c, i) && j < |c.exchanges| && j != i
    ensures Leaves(c, Receive(c, j), i) && Leaves(c, WakeUp(c, j, w), i)
  {
    hide Act, Enabled, BeginReceive, DeliversBody;
    StepLeaves(c, j, CallReceive, BeginReceive(c.exchanges[j].cycle).outputs, i);
    StepLeaves(c, j, Wake(w), [], i);
    EndingsLeave(StepExchange(c, j, Wake(w)), 0, i);
    hide MaybeResumeReading;
  }

  lemma EofLeaves(c: Conn, i: nat)
    requires IsPast(c, i)
    ensures Leaves(c, OnEof(c), i)
  {
    hide ResumeParsing, Act, Enabled;
    ResumeLeaves(c.(parser := c.parser.(eof := true), closing := true), i);
  }

  lemma TimersLeave(c: Conn, a: ConnAction, i: nat)
    requires IsPast(c, i) && CanAct(c, a)
    requires a.ConnectionLost? || a.IdleTimeout? || a.HeaderTimeout? || a.Shutdown? || a.ExitRequested?
    ensures Leaves(c, ActOn(c, a), i)
  {
    hide Act, Enabled, FailWith;
    EndingsLeave(c, 408, i);
  }

  /** Only the steps of its own application touch an exchange that is past. */
  lemma OthersLeave(c: Conn, a: ConnAction, i: nat)
    requires IsPast(c, i) && CanAct(c, a) && !IsStepOf(a, i)
    ensures Leaves(c, ActOn(c, a), i)
  {
    hide Leaves, ResumeParsing, Respond, EndRun, Receive, WakeUp, OnEof, Act, Enabled;
    if a.ConnectionLost? || a.IdleTimeout? || a.HeaderTimeout? || a.Shutdown? || a.ExitRequested? {
      TimersLeave(c, a, i);
      return;
    }
    match a
    case DataReceived(data) => DataLeaves(c, data, i);
    case EofReceived => EofLeaves(c, i);
    case AppReceive(j) => AppStepsLeave(c, j, Returns, i);
    case AppWake(j, w) => AppStepsLeave(c, j, w, i);
    case AppSend(j, m) => RespondLeaves(c, j, m, i);
    case AppEnd(j, raised) => EndLeaves(c, j, raised, i);
    case _ =>
  }

  lemma DataLeaves(c: Conn, data: bytes, i: nat)
    requires IsPast(c, i)
    ensures Leaves(c, OnData(c, data), i)
  {
    hide ResumeParsing;
    ResumeLeaves(c.(parser := Feed(c.parser, data), received := c.received + data), i);
  }

  // -- a complete response has been started ---------------------------------------------------

  lemma ResumeKeepsLived(c: Conn)
    requires Indexed(c) && AllLived(c.exchanges)
    ensures AllLived(ResumeParsing(c).exchanges)
  {
    hide Drain, OnEvents, AllLived;
    var d := Drain(c.parser, false);
    EventsKeepLived(c.(parser := d.next), d.events);
  }

  lemma CompleteKeepsLived(c: Conn, i: nat)
    requires Indexed(c) && i < |c.exchanges| && AllLived(c.exchanges)
    ensures AllLived(OnResponseComplete(c, i).exchanges)
  {
    hide ResumeParsing, AllLived;
    if c.current == Some(i) && c.parser.phase == Complete {
      ResumeKeepsLived(MaybeResumeReading(c.(current := None)).(parser := StartNext(c.parser)));
    }
  }

  lemma RespondKeepsLived(c: Conn, i: nat, m: SendMessage)
    requires Indexed(c) && i < |c.exchanges| && AllLived(c.exchanges)
    ensures AllLived(Respond(c, i, m).exchanges)
  {
    hide Send, Act, Enabled, OnResponseComplete, AllLived;
    var s, a := Send(c.exchanges[i].cycle, m, ShouldClose(c)), CallSend(m, ShouldClose(c));
    if s.Sent? {
      StepKeepsLived(c, i, a);
      CompleteKeepsLived(Put(StepExchange(c, i, a), i, s.outputs), i);
    }
  }

  lemma PeerStepsKeepLived(c: Conn, a: ConnAction)
    requires Indexed(c) && CanAct(c, a) && AllLived(c.exchanges) && (a.DataReceived? || a.EofReceived? || a.ConnectionLost?)
    ensures AllLived(ActOn(c, a).exchanges)
  {
    hide ResumeParsing, Act, Enabled, AllLived;
    match a
    case DataReceived(data) => ResumeKeepsLived(c.(parser := Feed(c.parser, data), received := c.received + data));
    case EofReceived =>
      var d := c.(parser := c.parser.(eof := true), closing := true);
      ResumeKeepsLived(d);
      LossKeepsLived(ResumeParsing(d));
    case ConnectionLost => LossKeepsLived(c.(transport := Lost));
  }

  lemma LossKeepsLived(c: Conn)
    requires Indexed(c) && AllLived(c.exchanges)
    ensures AllLived(Disconnect(c).exchanges)
  {
    hide Act, Enabled, AllLived;
    if c.current.Some? { StepKeepsLived(c, c.current.value, OnDisconnect); }
  }

  lemma ActionKeepsLived(c: Conn, a: ConnAction)
    requires Indexed(c) && CanAct(c, a) && AllLived(c.exchanges)
    ensures AllLived(ActOn(c, a).exchanges)
  {
    hide Respond, Act, Enabled, OnEof, OnData, Disconnect, AllLived, BeginReceive, DeliversBody;
    match a
    case AppReceive(i) => StepKeepsLived(c, i, CallReceive);
    case AppWake(i, w) => StepKeepsLived(c, i, Wake(w));
    case AppSend(i, m) => RespondKeepsLived(c, i, m);
    case AppEnd(i, raised) => RespondKeepsLived(c, i, ResponseBody([], false));
    case _ => if a.DataReceived? || a.EofReceived? || a.ConnectionLost? { PeerStepsKeepLived(c, a); }
  }

  lemma {:induction false} RunKeepsLived(start: Conn, actions: seq<ConnAction>, c: Conn)
    requires Indexed(start) && AllLived(start.exchanges) && Reaches(start, actions, c)
    ensures AllLived(c.exchanges)
    decreases |actions|
  {
    hide ActOn, CanAct, AllLived;
    if actions != [] {
      ActionKeepsLived(start, actions[0]);
      RunKeepsLived(ActOn(start, actions[0]), actions[1..], c);
    }
  }

  /** On an open connection the response of an exchange that is past is complete, and so
      it has been started. */
  predicate Settled(c: Conn) {
    forall i :: 0 <= i < |c.exchanges| && c.current != Some(i) && c.transport.Open? ==>
      c.exchanges[i].cycle.responseComplete && c.exchanges[i].cycle.responseStarted
  }

  lemma RunSettles(cfg: Config, actions: seq<ConnAction>, c: Conn)
    requires Reaches(NewConn(cfg), actions, c)
    ensures Live(c) && Settled(c)
  {
    NewIsLive(cfg);
    RunKeepsLive(NewConn(cfg), actions, c);
    RunKeepsLived(NewConn(cfg), actions, c);
    hide Reaches, Lived;
    forall i | 0 <= i < |c.exchanges| && c.current != Some(i) && c.transport.Open?
      ensures c.exchanges[i].cycle.responseComplete && c.exchanges[i].cycle.responseStarted
    {
      LivedIsStarted(c.exchanges[i]);
    }
  }

  lemma LivedIsStarted(x: Exchange)
    requires Lived(x)
    ensures x.cycle.responseComplete ==> x.cycle.responseStarted
  {
    var head: RequestHead, steps: seq<Action> :| Reachable(NewExchange(head), steps, x);
    NewIsFramed(head);
    RunKeepsFramed(NewExchange(head), steps, x);
    hide Reachable, StreamOf, WireBody, HeadFits;
  }

  // -- the steps of its own application --------------------------------------------------------

  /** Everything but what is written and read, who has ended, and the exchange `i`. */
  predicate OnlyTouches(c: Conn, d: Conn, i: nat) {
    && d.cfg == c.cfg && d.parser == c.parser && d.current == c.current && d.upgraded == c.upgraded
    && d.closing == c.closing && |d.exchanges| == |c.exchanges|
    && forall j :: 0 <= j < |c.exchanges| && j != i ==> d.exchanges[j] == c.exchanges[j]
  }

  /** What a step of its own application makes of an exchange that is past. */
  function OwnStep(c: Conn, x: Exchange, a: ConnAction): Exchange {
    match a
    case AppReceive(_) => Act(x, CallReceive)
    case AppWake(_, w) => if Enabled(x, Wake(w)) then Act(x, Wake(w)) else x
    case AppSend(_, m) => Act(x, CallSend(m, ShouldClose(c)))
    case AppEnd(_, raised) =>
      if !raised && x.cycle.responseStarted && !x.cycle.responseComplete
      then Act(x, CallSend(ResponseBody([], false), ShouldClose(c))) else x
    case _ => x
  }

  lemma SendingIsStepping(x: Exchange, m: SendMessage, shouldClose: bool)
    ensures var a, s := CallSend(m, shouldClose), Send(x.cycle, m, shouldClose);
            Enabled(x, a) && (s.SendRaises? ==> Act(x, a) == x) && (x.cycle.responseComplete ==> s.SendRaises?)
  {
    hide SendBody;
  }

  lemma PastCompletes(c: Conn, i: nat)
    requires IsPast(c, i)
    ensures OnResponseComplete(c, i) == c
  {
  }

  lemma PastResponds(c: Conn, i: nat, m: SendMessage)
    requires IsPast(c, i)
    ensures var d := Respond(c, i, m);
            && OnlyTouches(c, d, i) && d.transport == c.transport && d.ended == c.ended
            && d.exchanges[i] == Act(c.exchanges[i], CallSend(m, ShouldClose(c)))
            && (!c.transport.Open? || c.exchanges[i].cycle.responseComplete ==> d.wire == c.wire)
  {
    hide Send, Act, Enabled, OnResponseComplete;
    SendingIsStepping(c.exchanges[i], m, ShouldClose(c));
    var s, a := Send(c.exchanges[i].cycle, m, ShouldClose(c)), CallSend(m, ShouldClose(c));
    if s.Sent? { PastCompletes(Put(StepExchange(c, i, a), i, s.outputs), i); }
  }

  lemma PastReceives(c: Conn, i: nat)
    requires IsPast(c, i)
    ensures var d := Receive(c, i);
            && OnlyTouches(c, d, i) && d.transport == c.transport && d.ended == c.ended
            && d.exchanges[i] == Act(c.exchanges[i], CallReceive)
            && (!c.transport.Open? || c.exchanges[i].cycle.responseComplete ==> d.wire == c.wire)
  {
    hide Act;
    assert Tagged(i, []) == [] && c.wire + [] == c.wire;
  }

  lemma PastWakes(c: Conn, i: nat, w: Waiting)
    requires IsPast(c, i) && Enabled(c.exchanges[i], Wake(w))
    ensures var d := WakeUp(c, i, w);
            && OnlyTouches(c, d, i) && d.transport == c.transport && d.ended == c.ended && d.wire == c.wire
            && d.exchanges[i] == Act(c.exchanges[i], Wake(w))
  {
    hide Act, Enabled, DeliversBody;
  }

  lemma PastFails(c: Conn, i: nat)
    requires IsPast(c, i)
    ensures var d := OnAppError(c, i); IsPast(d, i) && d.exchanges == c.exchanges && d.ended == c.ended
    ensures Settled(c) ==> OnAppError(c, i) == CloseTransport(c)
    ensures Settled(c) && c.transport.Open? ==> c.exchanges[i].cycle.responseStarted && c.exchanges[i].cycle.responseComplete
  {
  }

  lemma PastEnds(c: Conn, i: nat, raised: bool)
    requires IsPast(c, i)
    ensures var d := EndRun(c, i, raised);
            && IsPast(d, i) && d.exchanges[i] == OwnStep(c, c.exchanges[i], AppEnd(i, raised)) && d.ended == c.ended + {i}
            && (Settled(c) ==>
                  && OnlyTouches(c, d, i) && d.wire == c.wire
                  && d.transport == if raised && c.transport.Open? then ClosingDown else c.transport)
  {
    hide Act, Respond, OnAppError, Settled;
    PastFails(c, i);
    PastResponds(c, i, ResponseBody([], false));
  }

  /** What a late step does to its own exchange; where those that are past are settled it
      does nothing else, except that a raise closes an open transport. */
  lemma OwnStepIs(c: Conn, a: ConnAction, i: nat)
    requires IsPast(c, i) && CanAct(c, a) && IsStepOf(a, i)
    ensures var d := ActOn(c, a);
            && IsPast(d, i) && d.exchanges[i] == OwnStep(c, c.exchanges[i], a)
            && d.ended == (if a.AppEnd? then c.ended + {i} else c.ended)
            && (Settled(c) ==>
                  && OnlyTouches(c, d, i) && d.wire == c.wire
                  && d.transport == if a == AppEnd(i, true) && c.transport.Open? then ClosingDown else c.transport)
  {
    PastFails(c, i);
    hide Act, Respond, Receive, EndRun, WakeUp, Settled, Enabled;
    match a
    case AppReceive(_) => PastReceives(c, i);
    case AppWake(_, w) => PastWakes(c, i, w);
    case AppSend(_, m) => PastResponds(c, i, m);
    case AppEnd(_, raised) => PastEnds(c, i, raised);
  }

  /** In every state that a run reaches: a step that an application takes when its exchange
      is no longer the one in progress touches neither the wire nor the parser nor any
      other exchange, and it touches the transport if and only if it is a raise on an
      open connection. */
  lemma LateStepClosesIff(cfg: Config, actions: seq<ConnAction>, c: Conn, a: ConnAction, i: nat)
    requires Reaches(NewConn(cfg), actions, c) && IsPast(c, i) && CanAct(c, a) && IsStepOf(a, i)
    ensures OnlyTouches(c, ActOn(c, a), i) && ActOn(c, a).wire == c.wire
    ensures ActOn(c, a).transport != c.transport <==> c.transport.Open? && a == AppEnd(i, true)
  {
    RunSettles(cfg, actions, c);
    OwnStepIs(c, a, i);
    hide ActOn, Reaches, Live;
  }

  // -- a transport that is no longer open ------------------------------------------------------

  /** Nothing more is written, and the transport stays closed. */
  predicate Silenced(c: Conn, d: Conn) { Indexed(d) && !d.transport.Open? && d.wire == c.wire }

  lemma ResumeIsSilent(c: Conn)
    requires Indexed(c) && !c.transport.Open?
    ensures Silenced(c, ResumeParsing(c))
  {
    hide Drain, OnEvents;
    var d := Drain(c.parser, false);
    EventsOnlyFeed(c.(parser := d.next), d.events);
  }

  lemma CompleteIsSilent(c: Conn, i: nat)
    requires Indexed(c) && i < |c.exchanges| && !c.transport.Open?
    ensures Silenced(c, OnResponseComplete(c, i))
  {
    hide ResumeParsing;
    if c.current == Some(i) && c.parser.phase == Complete {
      ResumeIsSilent(MaybeResumeReading(c.(current := None)).(parser := StartNext(c.parser)));
    }
  }

  lemma RespondIsSilent(c: Conn, i: nat, m: SendMessage)
    requires Indexed(c) && i < |c.exchanges| && !c.transport.Open?
    ensures Silenced(c, Respond(c, i, m))
  {
    hide Send, Act, Enabled, OnResponseComplete;
    var s, a := Send(c.exchanges[i].cycle, m, ShouldClose(c)), CallSend(m, ShouldClose(c));
    if s.Sent? { CompleteIsSilent(Put(StepExchange(c, i, a), i, s.outputs), i); }
  }

  lemma PeerStepsAreSilent(c: Conn, a: ConnAction)
    requires Indexed(c) && CanAct(c, a) && !c.transport.Open? && (a.DataReceived? || a.EofReceived?)
    ensures Silenced(c, ActOn(c, a))
  {
    hide ResumeParsing, Act, Enabled;
    match a
    case DataReceived(data) => ResumeIsSilent(c.(parser := Feed(c.parser, data), received := c.received + data));
    case EofReceived => ResumeIsSilent(c.(parser := c.parser.(eof := true), closing := true));
  }

  lemma ActionIsSilent(c: Conn, a: ConnAction)
    requires Indexed(c) && CanAct(c, a) && !c.transport.Open?
    ensures Silenced(c, ActOn(c, a))
  {
    hide Respond, Act, Enabled, OnEof, OnData, BeginReceive, DeliversBody;
    match a
    case DataReceived(_) => PeerStepsAreSilent(c, a);
    case EofReceived => PeerStepsAreSilent(c, a);
    case AppSend(i, m) => RespondIsSilent(c, i, m);
    case AppEnd(i, raised) => RespondIsSilent(c, i, ResponseBody([], false));
    case _ =>
  }

  lemma {:induction false} RunIsSilent(start: Conn, actions: seq<ConnAction>, c: Conn)
    requires Indexed(start) && Reaches(start, actions, c) && !start.transport.Open?
    ensures Silenced(start, c)
    decreases |actions|
  {
    hide ActOn, CanAct;
    if actions != [] {
      ActionIsSilent(start, actions[0]);
      RunIsSilent(ActOn(start, actions[0]), actions[1..], c);
    }
  }

  /** The application of an earlier request raises: the response in progress ends where it
      stands, and whatever happens next, not one more write reaches the peer. */
  lemma LateRaiseCutsOff(cfg: Config, before: seq<ConnAction>, c: Conn, i: nat, after: seq<ConnAction>, d: Conn)
    requires Reaches(NewConn(cfg), before, c) && IsPast(c, i) && CanAct(c, AppEnd(i, true))
    requires Reaches(ActOn(c, AppEnd(i, true)), after, d)
    ensures d.wire == c.wire && !d.transport.Open? && ActOn(c, AppEnd(i, true)).current == c.current
  {
    RunSettles(cfg, before, c);
    OwnStepIs(c, AppEnd(i, true), i);
    hide ActOn, Reaches, Live;
    RunIsSilent(ActOn(c, AppEnd(i, true)), after, d);
  }

  // -- an upgraded connection --------------------------------------------------------------------

  /** In every state that a run reaches: an open connection that is upgraded is shut by the
      peer's half-close, by a shutdown of the server, by its loss and by a raise of the
      application of an earlier request, and by no other step. */
  lemma UpgradedIsShutIff(cfg: Config, actions: seq<ConnAction>, c: Conn, a: ConnAction)
    requires Reaches(NewConn(cfg), actions, c) && Indexed(c) && c.upgraded && c.transport.Open? && CanAct(c, a)
    ensures !ActOn(c, a).transport.Open? <==>
            a.EofReceived? || a.Shutdown? || a.ConnectionLost? || (a.AppEnd? && a.raised)
  {
    RunSettles(cfg, actions, c);
    hide Reaches;
    assert c.current.None?;
    hide Live, Settled, Respond, Act, Enabled, Receive, WakeUp, EndRun, ResumeParsing;
    match a
    case AppReceive(i) => OwnStepIs(c, a, i);
    case AppWake(i, _) => OwnStepIs(c, a, i);
    case AppSend(i, _) => OwnStepIs(c, a, i);
    case AppEnd(i, _) => OwnStepIs(c, a, i);
    case _ =>
  }
}
