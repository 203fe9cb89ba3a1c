/** How a connection ends: which steps shut it and which do not, that a response in
    progress survives a shutdown of the server and the timers, and what a request that
    fails is answered with. */
module ConnectionEnding {
  import opened Bytes
  import opened ParserSpec
  import opened ParserHeads
  import opened ParserFields
  import opened ParserMessages
  import opened ExchangeSpec
  import opened ExchangeFraming
  import opened ExchangeResults
  import opened ResponseHeads
  import opened ConnectionSpec
  import opened ConnectionSafety
  import opened ConnectionRequests
  import opened ConnectionHeads
  import opened LateSteps
  import opened AbandonedReceive
  import opened UpgradedConnection

  // -- the steps that may shut a connection ---------------------------------------------------

  /** Shutting down leaves everything as it is, and the transport open if and only if a
      response is in progress. */
  lemma ShutdownClosesIff(c: Conn)
    requires Indexed(c) && CanAct(c, Shutdown)
    ensures var d := ActOn(c, Shutdown);
            && d.wire == c.wire && d.exchanges == c.exchanges && d.parser == c.parser && d.current == c.current
            && d.ended == c.ended && ShouldClose(d)
            && (d.transport.Open? <==> c.transport.Open? && c.current.Some?)
  {
  }

  /** Where the worker is to exit, the connection is not kept, and nothing else changes. */
  lemma ExitIsNoted(c: Conn)
    requires Indexed(c) && CanAct(c, ExitRequested)
    ensures var d := ActOn(c, ExitRequested); ShouldClose(d) && d == c.(shouldExit := true)
  {
  }

  /** The idle timeout shuts a connection if and only if nothing is in progress, and does
      nothing else. */
  lemma IdleTimeoutClosesIff(c: Conn)
    requires Indexed(c) && CanAct(c, IdleTimeout)
    ensures var d := ActOn(c, IdleTimeout);
            && d == c.(transport := d.transport)
            && (d.transport.Open? <==> c.transport.Open? && c.current.Some?)
  {
  }

  /** The header timeout answers 408 if and only if nothing is in progress, and shuts. */
  lemma HeaderTimeoutAnswersIff(c: Conn)
    requires Indexed(c) && CanAct(c, HeaderTimeout)
    ensures ActOn(c, HeaderTimeout) ==
            if c.transport.Open? && c.current.None? then c.(transport := ClosingDown, wire := c.wire + [ErrorAnswer(408)]) else c
  {
  }

  /** An application that fails before it has started its response: the peer gets 500 and
      nothing else; one that fails later only cuts its response off. */
  lemma FailureIsAnswered(c: Conn, i: nat, raised: bool)
    requires Live(c) && c.current == Some(i) && c.transport.Open? && CanAct(c, AppEnd(i, raised))
    requires raised || !c.exchanges[i].cycle.responseStarted
    ensures var d := ActOn(c, AppEnd(i, raised));
            && d.transport == ClosingDown && d.current.None? && d.exchanges == c.exchanges
            && d.wire == c.wire + if c.exchanges[i].cycle.responseStarted then [] else [ErrorAnswer(500)]
  {
    hide Live, Respond;
    assert c.wire + [] == c.wire;
  }

  // -- a refused request ---------------------------------------------------------------------------

  /** The first request of a connection, in one read, where its lines are legal and its
      fields are not: the peer gets the status that they call for, no application is
      begun, and the connection is shut. */
  lemma RefusedRequestIsAnswered(cfg: Config, m: RequestLineParts, headers: seq<Header>, rest: bytes)
    requires IsLegalHead(m, headers, cfg.limits) && Refusal(m, headers, cfg.limits).Some?
    ensures var d := ActOn(NewConn(cfg), DataReceived(PrintHead(m, headers) + rest));
            && d.wire == [ErrorAnswer(Refusal(m, headers, cfg.limits).value)] && d.exchanges == [] && d.transport == ClosingDown
  {
    var c, data := NewConn(cfg), PrintHead(m, headers) + rest;
    var p := Feed(Fresh(cfg.limits), data);
    assert [] + data == data;
    hide Refusal, IsLegalHead, PrintHead, Drain, NextEvent, IsHeadOf;
    HeadIsReadAsWritten(p, m, headers, rest);
    NextEventDrains(p, false);
    RaisedIsFailed(p);
    assert [] + [ErrorAnswer(Refusal(m, headers, cfg.limits).value)] == [ErrorAnswer(Refusal(m, headers, cfg.limits).value)];
  }

  lemma {:induction false} RaisedIsFailed(p: Parser)
    requires NextEvent(p).outcome.Raised?
    ensures NextEvent(p).next.error == Some(NextEvent(p).outcome.error)
    decreases |p.buffer|, Rank(p.phase)
  {
    if p.error.None? {
      assert Keeps(p, StepOf(p)) && Advances(p, StepOf(p));
      hide StepOf;
      if StepOf(p).Again? { RaisedIsFailed(StepOf(p).next); }
    }
  }

  // -- the response in progress --------------------------------------------------------------------

  /** Exchange `i` is being served on an open connection. */
  ghost predicate Serves(c: Conn, i: nat) {
    Live(c) && Settled(c) && AllLived(c.exchanges) && c.transport.Open? && c.current == Some(i)
  }

  /** A step that is neither a loss, nor an error of the request or of an application, nor
      the end of the stream. */
  predicate IsQuiet(c: Conn, a: ConnAction, i: nat)
    requires Indexed(c) && i < |c.exchanges|
  {
    match a
    case DataReceived(data) => Drain(Feed(c.parser, data), false).next.error.None?
    case EofReceived => false
    case ConnectionLost => false
    case AppEnd(j, raised) => !raised && (j == i ==> c.exchanges[i].cycle.responseStarted)
    case _ => true
  }

  /** The step sends the last of the response. */
  predicate IsFinal(c: Conn, a: ConnAction, i: nat)
    requires i < |c.exchanges|
  {
    c.exchanges[i].cycle.responseStarted &&
    match a
    case AppSend(j, m) => j == i && m.ResponseBody? && !m.more
    case AppEnd(j, raised) => j == i && !raised
    case _ => false
  }

  lemma ServesIs(c: Conn, i: nat)
    requires Serves(c, i)
    ensures Indexed(c) && Live(c) && Settled(c) && AllLived(c.exchanges) && c.transport.Open? && c.current == Some(i) && i == |c.exchanges| - 1
    ensures !c.exchanges[i].cycle.responseComplete && i !in c.ended && AllSent(c) && !c.upgraded
  {
    hide Lived;
  }

  lemma StepKeepsSettled(c: Conn, a: ConnAction)
    requires Live(c) && AllLived(c.exchanges) && CanAct(c, a)
    ensures Live(ActOn(c, a)) && AllLived(ActOn(c, a).exchanges) && Settled(ActOn(c, a))
  {
    ActionKeepsLive(c, a);
    ActionKeepsLived(c, a);
    var d := ActOn(c, a);
    hide ActOn, CanAct, Lived;
    forall i | 0 <= i < |d.exchanges| && d.current != Some(i) && d.transport.Open?
      ensures d.exchanges[i].cycle.responseComplete && d.exchanges[i].cycle.responseStarted
    {
      LivedIsStarted(d.exchanges[i]);
    }
  }

  lemma DataKeepsOpen(c: Conn, data: bytes)
    requires Live(c) && c.current.Some? && c.transport.Open? && Drain(Feed(c.parser, data), false).next.error.None?
    ensures OnData(c, data).transport.Open? && OnData(c, data).current == c.current && |OnData(c, data).exchanges| == |c.exchanges|
  {
    TrackedPhase(c);
    var p := Feed(c.parser, data);
    var fed := c.(parser := p, received := c.received + data);
    var d := Drain(p, false);
    NoHeadsInside(p);
    EventsOnlyFeed(fed.(parser := d.next), d.events);
    hide Live, Drain, OnEvents;
    NoHeadsKeepCurrent(fed.(parser := d.next), d.events);
  }

  lemma {:induction false} NoHeadsKeepCurrent(c: Conn, events: seq<Event>)
    requires Indexed(c) && NoHeads(events)
    ensures OnEvents(c, events).current == c.current && |OnEvents(c, events).exchanges| == |c.exchanges|
    decreases |events|
  {
    if events != [] {
      var d := OnEvent(c, events[0]);
      assert d.current == c.current && |d.exchanges| == |c.exchanges| by { hide Act, Enabled; }
      hide OnEvent;
      NoHeadsKeepCurrent(d, events[1..]);
    }
  }

  /** A quiet step that does not finish the response leaves it being served. */
  lemma QuietKeepsServing(c: Conn, a: ConnAction, i: nat)
    requires Serves(c, i) && CanAct(c, a) && IsQuiet(c, a, i) && !IsFinal(c, a, i)
    ensures Serves(ActOn(c, a), i) && |ActOn(c, a).exchanges| == |c.exchanges|
  {
    ServesIs(c, i);
    StepKeepsSettled(c, a);
    hide Serves, Live, Settled, AllLived;
    if IsStepOf(a, i) {
      OwnQuietStep(c, a, i);
    } else if a.DataReceived? {
      DataKeepsOpen(c, a.data);
      hide OnData;
    } else {
      OtherQuietStep(c, a, i);
    }
    hide ActOn;
    NowServes(ActOn(c, a), i);
  }

  lemma NowServes(c: Conn, i: nat)
    requires Live(c) && Settled(c) && AllLived(c.exchanges) && c.transport.Open? && c.current == Some(i)
    ensures Serves(c, i)
  {
    hide Live, Settled, AllLived;
  }

  lemma OwnQuietStep(c: Conn, a: ConnAction, i: nat)
    requires Indexed(c) && c.transport.Open? && c.current == Some(i) && CanAct(c, a) && IsStepOf(a, i) && IsQuiet(c, a, i) && !IsFinal(c, a, i)
    requires !c.exchanges[i].cycle.responseComplete
    ensures ActOn(c, a).transport.Open? && ActOn(c, a).current == Some(i) && |ActOn(c, a).exchanges| == |c.exchanges|
  {
    hide Act, Enabled, BeginReceive, DeliversBody, Respond;
    match a
    case AppSend(_, m) => OwnQuietSend(c, i, m);
    case _ =>
  }

  lemma OwnQuietSend(c: Conn, i: nat, m: SendMessage)
    requires Indexed(c) && c.transport.Open? && c.current == Some(i) && i < |c.exchanges| && !c.exchanges[i].cycle.responseComplete
    requires !(c.exchanges[i].cycle.responseStarted && m.ResponseBody? && !m.more)
    ensures var d := Respond(c, i, m);
            d.transport.Open? && d.current == Some(i) && |d.exchanges| == |c.exchanges|
  {
    SendFinishesIff(c.exchanges[i].cycle, m, ShouldClose(c));
    hide Act, Enabled, Send, OnResponseComplete;
  }

  lemma OtherQuietStep(c: Conn, a: ConnAction, i: nat)
    requires Settled(c) && Indexed(c) && c.transport.Open? && c.current == Some(i) && CanAct(c, a) && !IsStepOf(a, i) && IsQuiet(c, a, i)
    requires !a.DataReceived?
    ensures ActOn(c, a).transport.Open? && ActOn(c, a).current == Some(i) && |ActOn(c, a).exchanges| == |c.exchanges|
  {
    hide Settled, Respond, Receive, WakeUp, EndRun;
    match a
    case AppReceive(j) => OwnStepIs(c, a, j);
    case AppWake(j, _) => OwnStepIs(c, a, j);
    case AppSend(j, _) => OwnStepIs(c, a, j);
    case AppEnd(j, _) => OwnStepIs(c, a, j);
    case _ =>
  }

  // -- the end of the response ----------------------------------------------------------------------

  /** Everything that the exchanges have written has reached the peer. */
  predicate AllWritten(c: Conn) { c.wire == WritesOf(c.exchanges, |c.exchanges|) }

  /** Another request may follow on the connection. */
  predicate GoesOnBehind(c: Conn, x: Exchange) { x.cycle.keepAlive && !ShouldClose(c) && c.parser.phase == Complete }

  /** Open between two requests, all of these responses written. */
  predicate IsBetween(c: Conn, exchanges: seq<Exchange>, p: Parser) {
    AllWritten(c) && c.transport.Open? && c.current.None? && c.exchanges == exchanges && c.parser == p
  }

  /** What is left when parsing goes on with the next request. */
  ghost predicate ParsesOn(d: Conn, exchanges: seq<Exchange>, p: Parser) {
    exists c: Conn :: IsBetween(c, exchanges, p) && d == ResumeParsing(c)
  }

  /** The last message completes the response, all of which has then been written; and the
      transport is closing if the connection does not go on. */
  lemma FinalSendEnds(c: Conn, m: SendMessage, i: nat)
    requires Serves(c, i) && m.ResponseBody? && !m.more && c.exchanges[i].cycle.responseStarted
    ensures var d, x := Respond(c, i, m), Act(c.exchanges[i], CallSend(m, ShouldClose(c)));
            && i < |d.exchanges| && d.exchanges[i] == x && x.cycle.responseComplete && d.current != Some(i)
            && (!GoesOnBehind(c, x) ==>
                  && d.transport == ClosingDown && d.current.None? && AllWritten(d) && |d.exchanges| == |c.exchanges|)
            && (GoesOnBehind(c, x) ==> ParsesOn(d, c.exchanges[i := x], StartNext(c.parser)))
  {
    ServesIs(c, i);
    hide Serves, AllLived, Settled;
    var x0, a := c.exchanges[i], CallSend(m, ShouldClose(c));
    SendFinishesIff(x0.cycle, m, ShouldClose(c));
    SendingIsStepping(x0, m, ShouldClose(c));
    var s := Send(x0.cycle, m, ShouldClose(c));
    SentKeepsSound(c, i, m);
    SendIs(x0, m, ShouldClose(c));
    StepIs(c, i, a, s.outputs);
    var d := Put(StepExchange(c, i, a), i, s.outputs);
    SoundIsWritten(d);
    StepParser(c, i, a, s.outputs);
    hide Live, SoundFor, Act, Enabled, Send, StepExchange, Put, AllWritten, ResumeParsing;
    CompleteEnds(d, i);
  }

  lemma SoundIsWritten(c: Conn)
    requires SoundFor(c, c.parser) && c.transport.Open?
    ensures AllWritten(c)
  {
  }

  lemma StepParser(c: Conn, i: nat, a: Action, outputs: seq<Output>)
    requires i < |c.exchanges| && Enabled(c.exchanges[i], a)
    ensures var d := Put(StepExchange(c, i, a), i, outputs);
            && d.parser == c.parser && d.transport == c.transport && ShouldClose(d) == ShouldClose(c) && d.upgraded == c.upgraded
            && d.exchanges == c.exchanges[i := Act(c.exchanges[i], a)]
  {
    hide Act, Enabled;
  }

  lemma CompleteEnds(c: Conn, i: nat)
    requires Indexed(c) && c.current == Some(i) && c.transport.Open? && AllWritten(c)
    ensures var d := OnResponseComplete(c, i);
            && i < |d.exchanges| && d.exchanges[i] == c.exchanges[i] && d.current != Some(i)
            && (!GoesOnBehind(c, c.exchanges[i]) ==>
                  && d.transport == ClosingDown && d.current.None? && d.exchanges == c.exchanges && AllWritten(d))
            && (GoesOnBehind(c, c.exchanges[i]) ==> ParsesOn(d, c.exchanges, StartNext(c.parser)))
  {
    hide ResumeParsing;
    CompleteLeaves(c, i, i);
    var n := MaybeResumeReading(c.(current := None));
    if GoesOnBehind(c, c.exchanges[i]) {
      var e := n.(parser := StartNext(n.parser));
      assert IsBetween(e, c.exchanges, StartNext(c.parser)) && OnResponseComplete(c, i) == ResumeParsing(e);
    }
  }

  // -- behind a shutdown -------------------------------------------------------------------------------

  /** A run of quiet steps, the response of `i` ending with the last of them, if at all. */
  ghost predicate IsQuietRun(c: Conn, run: seq<ConnAction>, i: nat)
    decreases |run|
  {
    run == [] || (Indexed(c) && i < |c.exchanges| && CanAct(c, run[0]) && IsQuiet(c, run[0], i)
                  && if IsFinal(c, run[0], i) then |run| == 1 else IsQuietRun(ActOn(c, run[0]), run[1..], i))
  }

  ghost predicate EndsResponse(c: Conn, run: seq<ConnAction>, i: nat)
    decreases |run|
  {
    run != [] && Indexed(c) && i < |c.exchanges| && CanAct(c, run[0])
    && (IsFinal(c, run[0], i) || EndsResponse(ActOn(c, run[0]), run[1..], i))
  }

  /** A head that is written from now on says that the connection closes. */
  predicate WillSayClose(x: Exchange) { x.cycle.headWritten ==> !x.cycle.keepAlive }

  predicate KeepsSayingClose(before: seq<Exchange>, after: seq<Exchange>) {
    |before| <= |after| && forall k :: 0 <= k < |before| && WillSayClose(before[k]) ==> WillSayClose(after[k])
  }

  lemma ActSaysClose(x: Exchange, a: Action)
    requires Enabled(x, a) && (a.CallSend? ==> a.shouldClose) && WillSayClose(x)
    ensures WillSayClose(Act(x, a))
  {
    match a
    case CallSend(m, shouldClose) =>
      if x.cycle.responseStarted && !x.cycle.responseComplete && m.ResponseBody? && !x.cycle.headWritten {
        FirstBodyDecides(x, a);
        BuiltToClose(x.cycle, |m.body|, m.more);
      }
      hide BuildResponse, BodyOutputs, LowerNames;
    case CallReceive => hide Send;
    case _ => OthersAreAlike(x, a); hide Send, Poll;
  }

  lemma BuiltToClose(c: Cycle, n: nat, more: bool)
    ensures !BuildResponse(c, n, more, true).next.keepAlive
  {
    hide KeptFields, LengthFields, ConnectionFields, ChooseLength;
  }

  lemma StepSaysClose(c: Conn, i: nat, a: Action)
    requires i < |c.exchanges| && (a.CallSend? ==> a.shouldClose)
    ensures KeepsSayingClose(c.exchanges, StepExchange(c, i, a).exchanges)
  {
    hide Act, Enabled, WillSayClose;
    if Enabled(c.exchanges[i], a) && WillSayClose(c.exchanges[i]) { ActSaysClose(c.exchanges[i], a); }
  }

  lemma {:induction false} EventsSayClose(c: Conn, events: seq<Event>)
    requires Indexed(c)
    ensures KeepsSayingClose(c.exchanges, OnEvents(c, events).exchanges)
    decreases |events|
  {
    if events != [] {
      EventSaysClose(c, events[0]);
      hide OnEvent, WillSayClose;
      EventsSayClose(OnEvent(c, events[0]), events[1..]);
    }
  }

  lemma EventSaysClose(c: Conn, e: Event)
    requires Indexed(c)
    ensures KeepsSayingClose(c.exchanges, OnEvent(c, e).exchanges)
  {
    hide IsUpgrade, StepExchange, WillSayClose, NewExchange;
    var d := c.(seen := c.seen + [e]);
    match e
    case Head(head) =>
    case BodyData(data) => if c.current.Some? { StepSaysClose(d, c.current.value, FeedBody(data)); }
    case EndOfMessage => if c.current.Some? { StepSaysClose(d, c.current.value, FeedEom); }
  }

  lemma ResumeSaysClose(c: Conn)
    requires Indexed(c)
    ensures KeepsSayingClose(c.exchanges, ResumeParsing(c).exchanges)
  {
    hide Drain, OnEvents, WillSayClose;
    var d := Drain(c.parser, false);
    EventsSayClose(c.(parser := d.next), d.events);
  }

  lemma CompleteSaysClose(c: Conn, i: nat)
    requires Indexed(c) && i < |c.exchanges|
    ensures KeepsSayingClose(c.exchanges, OnResponseComplete(c, i).exchanges)
  {
    hide ResumeParsing, WillSayClose;
    if c.current == Some(i) && c.parser.phase == Complete {
      ResumeSaysClose(MaybeResumeReading(c.(current := None)).(parser := StartNext(c.parser)));
    }
  }

  lemma RespondSaysClose(c: Conn, i: nat, m: SendMessage)
    requires Indexed(c) && i < |c.exchanges| && ShouldClose(c)
    ensures KeepsSayingClose(c.exchanges, Respond(c, i, m).exchanges)
  {
    hide Send, Act, Enabled, OnResponseComplete, StepExchange, WillSayClose;
    var s, a := Send(c.exchanges[i].cycle, m, ShouldClose(c)), CallSend(m, ShouldClose(c));
    if s.Sent? {
      StepSaysClose(c, i, a);
      StepIsIndexed(c, i, a);
      CompleteSaysClose(Put(StepExchange(c, i, a), i, s.outputs), i);
    }
  }

  lemma QuietSaysClose(c: Conn, a: ConnAction)
    requires Indexed(c) && CanAct(c, a) && ShouldClose(c) && !a.EofReceived? && !a.ConnectionLost?
    ensures KeepsSayingClose(c.exchanges, ActOn(c, a).exchanges)
  {
    hide Respond, OnData, Receive, WakeUp, EndRun, KeepsSayingClose, ShouldClose, Enabled;
    SaidAlready(c.exchanges);
    match a
    case DataReceived(data) => DataSaysClose(c, data);
    case AppReceive(i) => CallSaysClose(c, i);
    case AppWake(i, w) => WakeSaysClose(c, i, w);
    case AppSend(i, m) => RespondSaysClose(c, i, m);
    case AppEnd(i, raised) => EndSaysClose(c, i, raised);
    case _ =>
  }

  lemma CallSaysClose(c: Conn, i: nat)
    requires i < |c.exchanges|
    ensures KeepsSayingClose(c.exchanges, Receive(c, i).exchanges)
  {
    hide StepExchange, BeginReceive, KeepsSayingClose;
    StepSaysClose(c, i, CallReceive);
  }

  lemma WakeSaysClose(c: Conn, i: nat, w: Waiting)
    requires Indexed(c) && i < |c.exchanges|
    ensures KeepsSayingClose(c.exchanges, WakeUp(c, i, w).exchanges)
  {
    hide StepExchange, DeliversBody, KeepsSayingClose;
    StepSaysClose(c, i, Wake(w));
  }

  lemma EndSaysClose(c: Conn, i: nat, raised: bool)
    requires Indexed(c) && i < |c.exchanges| && ShouldClose(c)
    ensures KeepsSayingClose(c.exchanges, EndRun(c, i, raised).exchanges)
  {
    hide Respond, KeepsSayingClose, ShouldClose;
    SaidAlready(c.exchanges);
    RespondSaysClose(c, i, ResponseBody([], false));
  }

  lemma SaidAlready(x: seq<Exchange>)
    ensures KeepsSayingClose(x, x)
  {
  }

  lemma DataSaysClose(c: Conn, data: bytes)
    requires Indexed(c)
    ensures KeepsSayingClose(c.exchanges, OnData(c, data).exchanges)
  {
    hide ResumeParsing, KeepsSayingClose;
    SaidAlready(c.exchanges);
    ResumeSaysClose(c.(parser := Feed(c.parser, data), received := c.received + data));
  }

  // -- a connection that is to close stays so ------------------------------------------------------

  lemma ResumeStaysClosing(c: Conn)
    requires Indexed(c)
    ensures ShouldClose(c) ==> ShouldClose(ResumeParsing(c))
  {
    hide Drain, OnEvents;
    var d := Drain(c.parser, false);
    EventsStayClosing(c.(parser := d.next), d.events);
  }

  lemma {:induction false} EventsStayClosing(c: Conn, events: seq<Event>)
    requires Indexed(c)
    ensures ShouldClose(c) ==> ShouldClose(OnEvents(c, events))
    decreases |events|
  {
    if events != [] {
      assert ShouldClose(c) ==> ShouldClose(OnEvent(c, events[0])) by { hide Act, Enabled, IsUpgrade; }
      hide OnEvent;
      EventsStayClosing(OnEvent(c, events[0]), events[1..]);
    }
  }

  lemma CompleteStaysClosing(c: Conn, i: nat)
    requires Indexed(c) && i < |c.exchanges|
    ensures ShouldClose(c) ==> ShouldClose(OnResponseComplete(c, i))
  {
    hide ResumeParsing;
  }

  lemma RespondStaysClosing(c: Conn, i: nat, m: SendMessage)
    requires Indexed(c) && i < |c.exchanges|
    ensures ShouldClose(c) ==> ShouldClose(Respond(c, i, m))
  {
    hide Send, Act, Enabled, OnResponseComplete;
    var s, a := Send(c.exchanges[i].cycle, m, ShouldClose(c)), CallSend(m, ShouldClose(c));
    if s.Sent? { CompleteStaysClosing(Put(StepExchange(c, i, a), i, s.outputs), i); }
  }

  lemma StaysClosing(c: Conn, a: ConnAction)
    requires Indexed(c) && CanAct(c, a) && ShouldClose(c) && !a.EofReceived? && !a.ConnectionLost?
    ensures ShouldClose(ActOn(c, a))
  {
    hide Respond, ResumeParsing, BeginReceive, DeliversBody, Act, Enabled;
    match a
    case DataReceived(data) => ResumeStaysClosing(c.(parser := Feed(c.parser, data), received := c.received + data));
    case AppSend(i, m) => RespondStaysClosing(c, i, m);
    case AppEnd(i, _) => RespondStaysClosing(c, i, ResponseBody([], false));
    case _ =>
  }

  lemma FinalStepEnds(c: Conn, a: ConnAction, i: nat)
    requires Serves(c, i) && CanAct(c, a) && IsFinal(c, a, i) && ShouldClose(c)
    ensures var d := ActOn(c, a);
            i < |d.exchanges| && d.exchanges[i].cycle.responseComplete && d.transport == ClosingDown && d.current.None? && AllWritten(d)
  {
    ServesIs(c, i);
    var m := if a.AppSend? then a.message else ResponseBody([], false);
    FinalSendEnds(c, m, i);
    hide Respond, Serves, Live, Act;
  }

  /** Behind a shutdown, whatever happens but a loss or an error: the response goes on, the
      transport stays open until its last message is sent, and by then all of it has
      been written. */
  lemma {:induction false} QuietRunEnds(c: Conn, run: seq<ConnAction>, d: Conn, i: nat)
    requires Indexed(c) && Serves(c, i) && ShouldClose(c) && IsQuietRun(c, run, i) && Reaches(c, run, d)
    ensures if EndsResponse(c, run, i) then
              i < |d.exchanges| && d.exchanges[i].cycle.responseComplete && d.transport == ClosingDown && d.current.None? && AllWritten(d)
            else Serves(d, i)
    ensures i < |c.exchanges| && i < |d.exchanges| && (WillSayClose(c.exchanges[i]) ==> WillSayClose(d.exchanges[i]))
    ensures AllLived(d.exchanges)
    decreases |run|
  {
    ServesIs(c, i);
    hide Serves, ActOn, CanAct, IsQuiet, IsFinal, ShouldClose, Live, Settled, AllLived, WillSayClose, AllWritten;
    if run != [] {
      var a := run[0];
      QuietStep(c, a, i);
      if IsFinal(c, a, i) {
        FinalStepEnds(c, a, i);
        assert run[1..] == [];
      } else {
        QuietKeepsServing(c, a, i);
        QuietRunEnds(ActOn(c, a), run[1..], d, i);
      }
    }
  }

  lemma QuietStep(c: Conn, a: ConnAction, i: nat)
    requires Indexed(c) && i < |c.exchanges| && CanAct(c, a) && IsQuiet(c, a, i) && ShouldClose(c) && AllLived(c.exchanges)
    ensures var d := ActOn(c, a);
            && Indexed(d) && ShouldClose(d) && AllLived(d.exchanges) && i < |d.exchanges|
            && (WillSayClose(c.exchanges[i]) ==> WillSayClose(d.exchanges[i]))
  {
    hide ActOn, CanAct, ShouldClose, AllLived, WillSayClose;
    QuietIs(c, a, i);
    hide IsQuiet;
    QuietSaysClose(c, a);
    StaysClosing(c, a);
    ActionKeepsLived(c, a);
  }

  lemma QuietIs(c: Conn, a: ConnAction, i: nat)
    requires Indexed(c) && i < |c.exchanges| && IsQuiet(c, a, i)
    ensures !a.EofReceived? && !a.ConnectionLost?
  {
    hide Drain;
  }

  predicate IsStop(a: ConnAction) { a.Shutdown? || a.ExitRequested? }

  /** In every state that a run reaches with a response in progress: behind a shutdown of
      the server, or the word to exit, over every run without a loss or an error, the
      transport stays open until the last message of the response is sent; then all of the
      response has been written, and only then is the transport closing. If the head had
      not been written, it says `connection: close`. */
  lemma StopLetsTheResponseFinish(cfg: Config, before: seq<ConnAction>, c: Conn, stop: ConnAction, run: seq<ConnAction>, d: Conn, i: nat)
    requires Reaches(NewConn(cfg), before, c) && Indexed(c) && c.current == Some(i) && c.transport.Open? && IsStop(stop)
    requires var e := ActOn(c, stop); IsQuietRun(e, run, i) && Reaches(e, run, d)
    ensures i < |d.exchanges|
    ensures if EndsResponse(ActOn(c, stop), run, i) then
              d.exchanges[i].cycle.responseComplete && d.transport == ClosingDown && AllWritten(d)
            else d.transport.Open? && d.current == Some(i) && AllWritten(d)
    ensures !c.exchanges[i].cycle.headWritten && HeadAt(d.exchanges[i].outputs).Some? ==> SaysClose(HeadOf(d.exchanges[i]))
  {
    RunSettles(cfg, before, c);
    RunKeepsLived(NewConn(cfg), before, c);
    if stop.Shutdown? { ShutdownClosesIff(c); } else { ExitIsNoted(c); }
    StepKeepsSettled(c, stop);
    var e := ActOn(c, stop);
    assert e.exchanges == c.exchanges && e.current == c.current && e.transport.Open? && ShouldClose(e);
    hide Reaches, ActOn, Live, Settled, AllLived, IsQuietRun, EndsResponse, WillSayClose, ShouldClose;
    NowServes(e, i);
    QuietRunEnds(e, run, d, i);
    if !EndsResponse(e, run, i) { ServesIs(d, i); hide Serves; }
    ClosesIfWritten(d, i);
    NotYetWritten(c.exchanges[i]);
  }

  lemma NotYetWritten(x: Exchange)
    ensures !x.cycle.headWritten ==> WillSayClose(x)
  {
  }

  lemma ClosesIfWritten(c: Conn, i: nat)
    requires AllLived(c.exchanges) && i < |c.exchanges|
    ensures WillSayClose(c.exchanges[i]) && HeadAt(c.exchanges[i].outputs).Some? ==> SaysClose(HeadOf(c.exchanges[i]))
  {
    LivedIsFramed(c.exchanges[i]);
    hide Lived, StreamOf, WireBody, Closing, HeadAt, ValuesOf;
  }

  // -- the end of the stream --------------------------------------------------------------------------

  /** The peer has sent its last byte: an idle connection is shut; one with a request in
      progress stays open to answer, unless the request is now an error, tells the
      exchange, and will not be kept. */
  lemma EofIs(c: Conn)
    requires Live(c) && c.transport.Open? && CanAct(c, EofReceived)
    ensures var d, p := ActOn(c, EofReceived), c.parser.(eof := true);
            if c.current.None? then d == c.(parser := p, transport := ClosingDown)
            else
              && ShouldClose(d)
              && (d.transport.Open? <==> Drain(p, false).next.error.None?)
              && (d.transport.Open? ==>
                    d.current == c.current && d.wire == c.wire && d.exchanges[c.current.value].cycle.disconnected)
  {
    var p := c.parser.(eof := true);
    if c.current.Some? {
      TrackedPhase(c);
      var d := Drain(p, false);
      var e := c.(parser := p, closing := true);
      NoHeadsInside(p);
      EventsOnlyFeed(e.(parser := d.next), d.events);
      NoHeadsKeepCurrent(e.(parser := d.next), d.events);
      EventsStayClosing(e.(parser := d.next), d.events);
      hide Live, Drain, OnEvents;
      ResumedIs(e);
      var r := ResumeParsing(e);
      hide ResumeParsing;
      TellsLoss(r);
    }
  }

  lemma ResumedIs(c: Conn)
    requires Indexed(c) && c.transport.Open? && c.current.Some?
    requires var d := Drain(c.parser, false);
             var e := OnEvents(c.(parser := d.next), d.events);
             e.current == c.current && OnlyFed(c.(parser := d.next), e) && (ShouldClose(c) ==> ShouldClose(e))
    ensures var d := ResumeParsing(c);
            && (ShouldClose(c) ==> ShouldClose(d))
            && (d.transport.Open? <==> Drain(c.parser, false).next.error.None?)
            && (d.transport.Open? ==> d.current == c.current && d.wire == c.wire)
  {
    hide Drain, OnEvents;
  }

  lemma TellsLoss(c: Conn)
    requires Indexed(c)
    ensures var d := Disconnect(c);
            && d.transport == c.transport && d.current == c.current && d.wire == c.wire && ShouldClose(d) == ShouldClose(c)
            && (c.current.Some? ==> c.current.value < |d.exchanges| && d.exchanges[c.current.value].cycle.disconnected)
  {
  }

  // -- which requests upgrade --------------------------------------------------------------------------

  /** A head asks for an upgrade exactly if it is a GET whose last `upgrade` field says
      websocket and whose last `connection` field contains upgrade, in any case. */
  lemma UpgradeIff(h: RequestHead, headers: seq<Header>)
    requires h.headers == LowerAll(headers)
    ensures IsUpgrade(h) <==>
            h.verb == Ascii("GET")
            && (exists value :: LastSays(headers, Ascii("upgrade"), value) && Lower(value) == Ascii("websocket"))
            && (exists value :: LastSays(headers, Ascii("connection"), value) && Find(Lower(value), Ascii("upgrade")).Some?)
  {
    hide Lower, Find, LowerAll, Ascii, ValuesOf, LastSays;
    LastIs(headers, Ascii("upgrade"));
    LastIs(headers, Ascii("connection"));
    forall name, a, b | LastSays(headers, name, a) && LastSays(headers, name, b) ensures a == b { LastIsOne(headers, name, a, b); }
  }

  lemma LastIsOne(headers: seq<Header>, name: bytes, a: bytes, b: bytes)
    requires LastSays(headers, name, a) && LastSays(headers, name, b)
    ensures a == b
  {
  }
}
