/** Reading is paused exactly while the buffer of the request in progress is full. */
module ConnectionPauses {
  import opened Bytes
  import opened ParserSpec
  import opened ExchangeSpec
  import opened ConnectionSpec
  import opened ConnectionSafety
  import opened LateSteps

  /** A full buffer has reading paused. */
  predicate InTime(c: Conn) {
    Indexed(c) && c.cfg.lowWater < c.cfg.highWater
    && (c.transport.Open? && c.current.Some? && BufferedBody(c) >= c.cfg.highWater ==> c.readPaused)
  }

  /** The same buffer, the same pause, and no connection that opens again. */
  predicate SameBuffer(c: Conn, d: Conn)
    requires Indexed(c)
  {
    && Indexed(d) && d.cfg == c.cfg && d.readPaused == c.readPaused && (d.transport.Open? ==> c.transport.Open?)
    && (d.current.Some? ==> d.current == c.current && BufferedBody(d) == BufferedBody(c))
  }

  lemma SameBufferInTime(c: Conn, d: Conn)
    requires InTime(c) && SameBuffer(c, d)
    ensures InTime(d)
  {
  }

  lemma ResumeInTime(c: Conn)
    requires Indexed(c) && c.cfg.lowWater < c.cfg.highWater
    ensures InTime(ResumeParsing(c)) || c.transport.Lost?
  {
    hide Drain, OnEvents;
    var d := Drain(c.parser, false);
    EventsOnlyFeed(c.(parser := d.next), d.events);
  }

  lemma ResumeKeepsInTime(c: Conn)
    requires InTime(c)
    ensures InTime(ResumeParsing(c))
  {
    ResumeInTime(c);
    hide Drain, OnEvents, FailWith, UpdateReadPause;
  }

  lemma MaybeResumeInTime(c: Conn)
    requires InTime(c)
    ensures InTime(MaybeResumeReading(c)) && InTime(c.(current := None))
  {
  }

  lemma CompleteInTime(c: Conn, i: nat)
    requires InTime(c) && i < |c.exchanges|
    ensures InTime(OnResponseComplete(c, i))
  {
    hide ResumeParsing, InTime;
    assert Indexed(c) by { IsIndexed(c); }
    if c.current == Some(i) {
      MaybeResumeInTime(c);
      var n := c.(current := None);
      MaybeResumeInTime(n);
      var d := MaybeResumeReading(n);
      ClosedInTime(d);
      if d.parser.phase == Complete {
        OtherParserInTime(d, StartNext(d.parser));
        ResumeKeepsInTime(d.(parser := StartNext(d.parser)));
      }
    }
  }

  lemma IsIndexed(c: Conn)
    requires InTime(c)
    ensures Indexed(c)
  {
  }

  lemma ClosedInTime(c: Conn)
    requires InTime(c)
    ensures InTime(CloseTransport(c))
  {
  }

  lemma OtherParserInTime(c: Conn, p: Parser)
    requires InTime(c)
    ensures InTime(c.(parser := p))
  {
  }

  lemma StepKeepsBuffer(c: Conn, i: nat, a: Action, outputs: seq<Output>)
    requires Indexed(c) && i < |c.exchanges| && FromApplication(a) && (a.Wake? ==> !DeliversBody(c.exchanges[i], a.waiting))
    ensures SameBuffer(c, StepExchange(c, i, a)) && SameBuffer(c, Put(StepExchange(c, i, a), i, outputs))
  {
    hide Act, DeliversBody;
    if Enabled(c.exchanges[i], a) {
      ActKeepsRequest(c.exchanges[i], a);
      if a.Wake? { WakeTakesBody(c.exchanges[i], a.waiting); }
    }
    hide Enabled;
  }

  lemma WakeInTime(c: Conn, i: nat, w: Waiting)
    requires InTime(c) && i < |c.exchanges| && Enabled(c.exchanges[i], Wake(w))
    ensures InTime(WakeUp(c, i, w))
  {
    var d := StepExchange(c, i, Wake(w));
    WakeTakesBody(c.exchanges[i], w);
    if DeliversBody(c.exchanges[i], w) {
      DeliveredInTime(c, i, w);
      hide InTime, DeliversBody, Act;
      MaybeResumeInTime(d);
    } else {
      hide DeliversBody, Act;
      StepKeepsBuffer(c, i, Wake(w), []);
      SameBufferInTime(c, d);
    }
  }

  lemma DeliveredInTime(c: Conn, i: nat, w: Waiting)
    requires InTime(c) && i < |c.exchanges| && Enabled(c.exchanges[i], Wake(w)) && DeliversBody(c.exchanges[i], w)
    ensures InTime(StepExchange(c, i, Wake(w)))
  {
    WakeTakesBody(c.exchanges[i], w);
    hide Act, DeliversBody;
  }

  lemma RespondInTime(c: Conn, i: nat, m: SendMessage)
    requires InTime(c) && i < |c.exchanges|
    ensures InTime(Respond(c, i, m))
  {
    hide Send, Act, Enabled, OnResponseComplete, InTime, SameBuffer;
    IsIndexed(c);
    var s, a := Send(c.exchanges[i].cycle, m, ShouldClose(c)), CallSend(m, ShouldClose(c));
    if s.Sent? {
      StepKeepsBuffer(c, i, a, s.outputs);
      var d := Put(StepExchange(c, i, a), i, s.outputs);
      SameBufferInTime(c, d);
      if s.next.responseComplete { CompleteInTime(d, i); }
    }
  }

  lemma EofInTime(c: Conn)
    requires InTime(c)
    ensures InTime(OnEof(c))
  {
    hide ResumeParsing, Act, Enabled;
    var p := c.parser.(eof := true);
    var d := c.(parser := p, closing := true);
    ResumeKeepsInTime(d);
    ClosedInTime(c.(parser := p));
    var e := ResumeParsing(d);
    if e.current.Some? {
      StepKeepsBuffer(e, e.current.value, OnDisconnect, []);
      SameBufferInTime(e, StepExchange(e, e.current.value, OnDisconnect));
    }
  }

  lemma DataInTime(c: Conn, data: bytes)
    requires InTime(c)
    ensures InTime(OnData(c, data))
  {
    hide ResumeParsing;
    ResumeKeepsInTime(c.(parser := Feed(c.parser, data), received := c.received + data));
  }

  lemma LossInTime(c: Conn)
    requires InTime(c)
    ensures InTime(Disconnect(c.(transport := Lost)))
  {
    hide Act, Enabled;
  }

  lemma TimersInTime(c: Conn, a: ConnAction)
    requires InTime(c) && CanAct(c, a) && (a.IdleTimeout? || a.HeaderTimeout? || a.Shutdown? || a.ExitRequested?)
    ensures InTime(ActOn(c, a))
  {
  }

  lemma ReceiveInTime(c: Conn, i: nat)
    requires InTime(c) && i < |c.exchanges|
    ensures InTime(Receive(c, i))
  {
    hide Act, Enabled, BeginReceive, InTime, SameBuffer;
    IsIndexed(c);
    StepKeepsBuffer(c, i, CallReceive, BeginReceive(c.exchanges[i].cycle).outputs);
    SameBufferInTime(c, Receive(c, i));
  }

  lemma EndInTime(c: Conn, i: nat, raised: bool)
    requires InTime(c) && i < |c.exchanges|
    ensures InTime(EndRun(c, i, raised))
  {
    IsIndexed(c);
    hide Respond, OnAppError, InTime;
    RespondInTime(c, i, ResponseBody([], false));
    ErrorInTime(c, i);
    var x := c.exchanges[i].cycle;
    var d := if raised || !x.responseStarted then OnAppError(c, i)
             else if !x.responseComplete then Respond(c, i, ResponseBody([], false)) else c;
    EndedInTime(d, d.ended + {i});
  }

  lemma ErrorInTime(c: Conn, i: nat)
    requires InTime(c) && i < |c.exchanges|
    ensures InTime(OnAppError(c, i))
  {
  }

  lemma EndedInTime(c: Conn, ended: set<nat>)
    requires InTime(c)
    ensures InTime(c.(ended := ended))
  {
  }

  lemma ActionInTime(c: Conn, a: ConnAction)
    requires InTime(c) && CanAct(c, a)
    ensures InTime(ActOn(c, a))
  {
    IsIndexed(c);
    hide InTime, Respond, WakeUp, Receive, EndRun, OnEof, OnData, Disconnect, Act, FailWith;
    match a
    case DataReceived(data) => DataInTime(c, data);
    case EofReceived => EofInTime(c);
    case ConnectionLost => LossInTime(c);
    case AppReceive(i) => ReceiveInTime(c, i);
    case AppWake(i, w) => WakeInTime(c, i, w);
    case AppSend(i, m) => RespondInTime(c, i, m);
    case AppEnd(i, raised) => EndInTime(c, i, raised);
    case _ => TimersInTime(c, a);
  }

  lemma {:induction false} RunInTime(start: Conn, actions: seq<ConnAction>, c: Conn)
    requires InTime(start) && Reaches(start, actions, c)
    ensures InTime(c)
    decreases |actions|
  {
    IsIndexed(start);
    hide ActOn, CanAct, InTime;
    if actions != [] {
      ActionInTime(start, actions[0]);
      RunInTime(ActOn(start, actions[0]), actions[1..], c);
    }
  }

  /** In every state that a run reaches, with the low mark below the high one: reading is
      paused on an open connection if and only if a request is in progress whose buffer
      holds the high mark or more. */
  lemma PausedIff(cfg: Config, actions: seq<ConnAction>, c: Conn)
    requires cfg.lowWater < cfg.highWater && Reaches(NewConn(cfg), actions, c) && c.transport.Open?
    ensures Indexed(c) && (c.readPaused <==> c.current.Some? && BufferedBody(c) >= cfg.highWater)
  {
    RunInTime(NewConn(cfg), actions, c);
    OneExchangeAtATime(cfg, actions, c);
    RunKeepsConfig(NewConn(cfg), actions, c);
    hide Reaches, OneAtATime, InOrder;
  }
}
