/** A connection that is upgraded: which bytes the frame layer is given, and which are
    left behind in the request parser. */
module UpgradedConnection {
  import opened Bytes
  import opened ParserSpec
  import opened ExchangeSpec
  import opened ConnectionSpec
  import opened ConnectionSafety

  /** The request has no body, as an upgrade request should. */
  predicate BodyFree(head: RequestHead) {
    !head.chunked && (head.contentLength.None? || head.contentLength.value == 0)
  }

  /** All bytes that arrive in a run. */
  function DataIn(actions: seq<ConnAction>): bytes {
    if actions == [] then []
    else (if actions[0].DataReceived? then actions[0].data else []) + DataIn(actions[1..])
  }

  /** The parser that a step goes on with: fed with what arrived, or started on the next
      message behind a response. */
  function ParsedBy(c: Conn, a: ConnAction): Parser {
    if a.DataReceived? then Feed(c.parser, a.data)
    else if c.parser.phase == Complete then StartNext(c.parser)
    else c.parser
  }

  // -- one drain ----------------------------------------------------------------------

  lemma {:induction false} DrainStartsWithNext(p: Parser)
    requires p.phase == Failed <==> p.error.Some?
    requires Drain(p, false).events != []
    ensures var t := NextEvent(p);
            t.outcome == Got(Drain(p, false).events[0]) && Drain(t.next, false).events == Drain(p, false).events[1..]
            && Drain(t.next, false).next == Drain(p, false).next
            && (t.next.phase == Failed <==> t.next.error.Some?)
            && (t.outcome.event.Head? ==> HeadPhase(p.phase)) && !HeadPhase(t.next.phase)
    decreases |p.buffer|, Rank(p.phase)
  {
    if p.error.None? && p.phase != Complete {
      EmitPhases(p);
      hide StepOf;
      if StepOf(p).Again? { DrainStartsWithNext(StepOf(p).next); }
    }
  }

  predicate NoHeads(events: seq<Event>) { forall k :: 0 <= k < |events| ==> !events[k].Head? }

  /** Inside a message no head comes out. */
  lemma {:induction false} NoHeadsInside(p: Parser)
    requires !HeadPhase(p.phase) && (p.phase == Failed <==> p.error.Some?)
    ensures NoHeads(Drain(p, false).events)
    decreases |p.buffer|, Rank(p.phase)
  {
    if p.error.None? && p.phase != Complete {
      EmitPhases(p);
      hide StepOf;
      match StepOf(p)
      case Again(next) => NoHeadsInside(next);
      case Emit(e, next) => NoHeadsInside(next);
      case _ =>
    }
  }

  lemma {:induction false} NoHeadsNoUpgrade(c: Conn, events: seq<Event>)
    requires Indexed(c) && NoHeads(events)
    ensures OnEvents(c, events).upgraded == c.upgraded
    decreases |events|
  {
    if events != [] {
      assert OnEvent(c, events[0]).upgraded == c.upgraded by { hide Act, Enabled; }
      hide OnEvent;
      NoHeadsNoUpgrade(OnEvent(c, events[0]), events[1..]);
    }
  }

  /** Behind the head of a request without a body the parser stops, and leaves every
      byte where it is. */
  lemma BodyFreeStops(p: Parser)
    requires p.phase == BodyLength && p.remaining == 0 && p.error.None?
    ensures Drain(p, false) == Drained([EndOfMessage], p.(phase := Complete))
  {
    var q := p.(phase := Complete);
    assert StepOf(p) == Emit(EndOfMessage, q);
    assert Drain(q, false) == Drained([], q);
  }

  lemma HeadIsFramed(p: Parser)
    requires StepOf(p).Emit? && StepOf(p).event.Head? && BodyFree(StepOf(p).event.head) && p.error.None?
    ensures var next := StepOf(p).next;
            next.phase == BodyLength && next.remaining == 0 && next.error.None?
  {
    hide StepOf, FinishHeaders;
    EmittedHead(p);
    var q: Parser :| q.error == p.error && StepOf(p) == FinishHeaders(q);
    FinishedIsFramed(q);
  }

  lemma FinishedIsFramed(p: Parser)
    requires FinishHeaders(p).Emit? && p.error.None?
    ensures FinishHeaders(p).event.Head?
    ensures var s := FinishHeaders(p);
            BodyFree(s.event.head) ==> s.next.phase == BodyLength && s.next.remaining == 0 && s.next.error.None?
  {
    hide FramingOf, BodyOverLimit;
    match FramingOf(p.headers, p.version)
    case FramedAs(framing) => BuiltIsFramed(p, framing); hide BuildHead;
    case _ =>
  }

  lemma BuiltIsFramed(p: Parser, framing: Framing)
    ensures var b := BuildHead(p.verb, p.version, p.target, p.headers, framing);
            b.GoodHead? ==> b.head.chunked == framing.chunked && b.head.contentLength == framing.contentLength
  {
    hide ValuesOf, SplitTarget, HasConnectionToken, All;
  }

  lemma EmittedHead(p: Parser)
    requires StepOf(p).Emit? && StepOf(p).event.Head?
    ensures p.phase == Headers
    ensures exists q: Parser :: q.error == p.error && StepOf(p) == FinishHeaders(q)
  {
    hide ReadLine, MatchHeaderLine, MatchRequestLine, MatchChunkSize, FinishHeaders;
    var line := ReadLine(p.buffer, p.limits.maxHeadersSize - p.headersSize, HeadersTooLarge);
    if p.phase == Headers && line.Line? {
      var q := p.(buffer := line.rest, headersSize := p.headersSize + |line.line| + 2);
      assert StepOf(p) == TakeHeaderLine(q, line.line);
    }
  }

  lemma {:induction false} NextHeadIsFramed(p: Parser)
    requires p.phase == Failed <==> p.error.Some?
    ensures var t := NextEvent(p);
            t.outcome.Got? && t.outcome.event.Head? && BodyFree(t.outcome.event.head) ==>
              t.next.phase == BodyLength && t.next.remaining == 0 && t.next.error.None?
    decreases |p.buffer|, Rank(p.phase)
  {
    if p.error.None? && p.phase != Complete {
      EmitPhases(p);
      if StepOf(p).Emit? && StepOf(p).event.Head? && BodyFree(StepOf(p).event.head) { HeadIsFramed(p); }
      hide StepOf;
      if StepOf(p).Again? { NextHeadIsFramed(StepOf(p).next); }
    }
  }

  // -- the step that upgrades ---------------------------------------------------------------

  /** What a step leaves where it upgrades: the parser went on from `p`, the head it found
      asks for it, and without a body every byte behind the head is still in the buffer. */
  predicate UpgradesAt(p: Parser, d: Conn) {
    var t := NextEvent(p);
    && t.outcome.Got? && t.outcome.event.Head? && IsUpgrade(t.outcome.event.head)
    && (BodyFree(t.outcome.event.head) ==> d.parser.buffer == t.next.buffer)
  }

  predicate SameStream(c: Conn, d: Conn) { d.received == c.received && d.framed == c.framed }

  lemma EndingsKeepStream(c: Conn, status: int)
    requires Indexed(c)
    ensures var d := FailWith(c, status); d.parser == c.parser && d.upgraded == c.upgraded && SameStream(c, d)
    ensures var d := UpdateReadPause(c); d.parser == c.parser && d.upgraded == c.upgraded && SameStream(c, d)
  {
  }

  lemma ResumeUpgrades(c: Conn)
    requires Indexed(c) && (c.parser.phase == Failed <==> c.parser.error.Some?)
    ensures var d := ResumeParsing(c);
            SameStream(c, d) && (d.upgraded && !c.upgraded ==> HeadPhase(c.parser.phase) && UpgradesAt(c.parser, d))
  {
    hide Drain, NextEvent, IsUpgrade, BodyFree, OnEvents, FailWith, UpdateReadPause, Act, Enabled;
    if !c.transport.Lost? {
      var d := Drain(c.parser, false);
      var start := c.(parser := d.next);
      var e := OnEvents(start, d.events);
      EventsOnlyFeed(start, d.events);
      EndingsKeepStream(e, if d.next.error.Some? then d.next.error.value.Status() else 0);
      if e.upgraded && !c.upgraded { DrainUpgrades(c.parser, start); }
    }
  }

  lemma DrainUpgrades(p: Parser, c: Conn)
    requires Indexed(c) && (p.phase == Failed <==> p.error.Some?) && c.parser == Drain(p, false).next
    requires !c.upgraded && OnEvents(c, Drain(p, false).events).upgraded
    ensures HeadPhase(p.phase) && UpgradesAt(p, c)
  {
    hide Drain, NextEvent, IsUpgrade, BodyFree, Act, Enabled;
    var events := Drain(p, false).events;
    assert events != [];
    DrainStartsWithNext(p);
    var t := NextEvent(p);
    NoHeadsInside(t.next);
    NoHeadsNoUpgrade(OnEvent(c, events[0]), events[1..]);
    NextHeadIsFramed(p);
    hide OnEvents;
    if t.outcome.event.Head? && BodyFree(t.outcome.event.head) { BodyFreeStops(t.next); }
  }

  /** Steps that do not parse do not upgrade. */
  predicate SameParse(c: Conn, d: Conn) {
    d.upgraded == c.upgraded && d.parser.buffer == c.parser.buffer && SameStream(c, d)
  }

  lemma StepKeepsParse(c: Conn, i: nat, a: Action, outputs: seq<Output>)
    requires i < |c.exchanges|
    ensures var d := Put(StepExchange(c, i, a), i, outputs);
            SameParse(c, d) && d.parser == c.parser && d.current == c.current && |d.exchanges| == |c.exchanges|
  {
    hide Act, Enabled;
  }

  lemma OthersKeepParse(c: Conn, a: ConnAction)
    requires Indexed(c) && CanAct(c, a) && !a.DataReceived? && !a.EofReceived? && !a.AppSend? && !a.AppEnd?
    ensures SameParse(c, ActOn(c, a))
  {
    hide Act, Enabled, BeginReceive, DeliversBody;
    if a.AppReceive? { StepKeepsParse(c, a.i, CallReceive, BeginReceive(c.exchanges[a.i].cycle).outputs); }
    if a.AppWake? { StepKeepsParse(c, a.i, Wake(a.waiting), []); }
  }

  lemma EndKeepsParse(c: Conn, i: nat)
    requires Indexed(c) && i < |c.exchanges|
    ensures SameParse(c, OnAppError(c, i))
  {
    hide FailWith;
    EndingsKeepStream(c, 500);
    EndingsKeepStream(c.(current := None), 500);
  }

  /** Behind a response the next message may be the upgrade. */
  lemma CompleteUpgrades(c: Conn, i: nat)
    requires Indexed(c) && i < |c.exchanges| && (c.parser.phase == Failed <==> c.parser.error.Some?)
    ensures var d := OnResponseComplete(c, i);
            && SameStream(c, d) && (c.current != Some(i) ==> d == c)
            && (d.upgraded && !c.upgraded ==> c.parser.phase == Complete && UpgradesAt(StartNext(c.parser), d))
  {
    hide ResumeParsing, UpgradesAt;
    if c.current == Some(i) && c.parser.phase == Complete {
      ResumeUpgrades(MaybeResumeReading(c.(current := None)).(parser := StartNext(c.parser)));
    }
  }

  lemma RespondUpgrades(c: Conn, i: nat, m: SendMessage)
    requires Live(c) && i < |c.exchanges|
    ensures var d := Respond(c, i, m);
            && SameStream(c, d)
            && (c.upgraded ==> SameParse(c, d))
            && (d.upgraded && !c.upgraded ==> c.parser.phase == Complete && UpgradesAt(StartNext(c.parser), d))
  {
    UpgradedIsIdle(c);
    hide Live, Send, Act, Enabled, OnResponseComplete, UpgradesAt;
    var s, a := Send(c.exchanges[i].cycle, m, ShouldClose(c)), CallSend(m, ShouldClose(c));
    if s.Sent? {
      StepKeepsParse(c, i, a, s.outputs);
      CompleteUpgrades(Put(StepExchange(c, i, a), i, s.outputs), i);
    }
  }

  lemma UpgradedIsIdle(c: Conn)
    requires Live(c)
    ensures Indexed(c) && (c.upgraded ==> c.current.None?) && (c.parser.phase == Failed <==> c.parser.error.Some?)
  {
  }

  lemma EofUpgradesNothing(c: Conn)
    requires Live(c)
    ensures SameStream(c, OnEof(c)) && OnEof(c).upgraded == c.upgraded
    ensures c.upgraded ==> SameParse(c, OnEof(c))
  {
    hide Act, Enabled, ResumeParsing, WireSound, UpgradesAt;
    var d := c.(parser := c.parser.(eof := true), closing := true);
    ResumeUpgrades(d);
    if c.current.Some? { UpgradedStays(d); }
  }

  /** Where no head can come, parsing leaves the kind of connection as it is. */
  lemma UpgradedStays(c: Conn)
    requires Indexed(c) && !HeadPhase(c.parser.phase) && (c.parser.phase == Failed <==> c.parser.error.Some?)
    ensures ResumeParsing(c).upgraded == c.upgraded
  {
    hide Drain, OnEvents, FailWith, UpdateReadPause;
    var d := Drain(c.parser, false);
    NoHeadsInside(c.parser);
    NoHeadsNoUpgrade(c.(parser := d.next), d.events);
    EndingsKeepStream(OnEvents(c.(parser := d.next), d.events), if d.next.error.Some? then d.next.error.value.Status() else 0);
  }

  /** One step of a connection that is not upgraded. */
  lemma ActionUpgrades(c: Conn, a: ConnAction)
    requires Live(c) && CanAct(c, a) && !c.upgraded
    ensures ActOn(c, a).framed == c.framed
    ensures ActOn(c, a).upgraded ==> UpgradesAt(ParsedBy(c, a), ActOn(c, a))
  {
    hide ResumeParsing, Respond, EndRun, Receive, WakeUp, OnEof, OnAppError, WireSound, UpgradesAt, Act, Enabled;
    match a
    case DataReceived(data) => ResumeUpgrades(c.(parser := Feed(c.parser, data), received := c.received + data));
    case EofReceived => EofUpgradesNothing(c);
    case AppSend(i, m) => RespondUpgrades(c, i, m);
    case AppEnd(i, raised) => EndUpgrades(c, i, raised);
    case _ => OthersKeepParse(c, a);
  }

  lemma EndUpgrades(c: Conn, i: nat, raised: bool)
    requires Live(c) && i < |c.exchanges|
    ensures var d := EndRun(c, i, raised);
            && SameStream(c, d)
            && (c.upgraded ==> SameParse(c, d))
            && (d.upgraded && !c.upgraded ==> c.parser.phase == Complete && UpgradesAt(StartNext(c.parser), d))
  {
    RespondUpgrades(c, i, ResponseBody([], false));
    EndKeepsParse(c, i);
    hide Live, Respond, OnAppError, NextEvent, IsUpgrade;
  }

  /** One step of an upgraded connection: bytes go to the frame layer, and the parser's
      buffer is never looked at again. */
  lemma ActionStaysUpgraded(c: Conn, a: ConnAction)
    requires Live(c) && CanAct(c, a) && c.upgraded
    ensures var d := ActOn(c, a);
            && d.upgraded && d.parser.buffer == c.parser.buffer && d.received == c.received
            && d.framed == c.framed + (if a.DataReceived? then a.data else [])
  {
    hide ResumeParsing, Respond, EndRun, Receive, WakeUp, OnEof, OnAppError, WireSound, Act, Enabled;
    match a
    case DataReceived(data) =>
    case EofReceived => EofUpgradesNothing(c);
    case AppSend(i, m) => RespondUpgrades(c, i, m); hide UpgradesAt;
    case AppEnd(i, raised) => EndUpgrades(c, i, raised); hide UpgradesAt;
    case _ => OthersKeepParse(c, a);
  }

  lemma {:induction false} RunStaysUpgraded(start: Conn, actions: seq<ConnAction>, c: Conn)
    requires Live(start) && start.upgraded && Reaches(start, actions, c)
    ensures c.upgraded && c.parser.buffer == start.parser.buffer && c.received == start.received
    ensures c.framed == start.framed + DataIn(actions)
    decreases |actions|
  {
    hide ActOn, CanAct, SoundFor, Unfinished;
    if actions != [] {
      ActionKeepsLive(start, actions[0]);
      ActionStaysUpgraded(start, actions[0]);
      RunStaysUpgraded(ActOn(start, actions[0]), actions[1..], c);
    }
  }

  lemma {:induction false} RunFramesNothing(start: Conn, actions: seq<ConnAction>, c: Conn)
    requires Live(start) && Reaches(start, actions, c) && !c.upgraded
    ensures !start.upgraded && c.framed == start.framed
    decreases |actions|
  {
    hide ActOn, CanAct, SoundFor, Unfinished, UpgradesAt;
    if actions != [] {
      ActionKeepsLive(start, actions[0]);
      if start.upgraded {
        ActionStaysUpgraded(start, actions[0]);
      } else {
        ActionUpgrades(start, actions[0]);
      }
      RunFramesNothing(ActOn(start, actions[0]), actions[1..], c);
    }
  }

  /** In every run that upgrades: the frame layer is given exactly the bytes of the reads
      behind the upgrading step. What was buffered behind the head is left in the
      request parser for good, so nothing of the stream is lost if and only if nothing
      was buffered there. */
  lemma BytesBehindAnUpgradeAreLost(cfg: Config, before: seq<ConnAction>, c: Conn, a: ConnAction,
                                    after: seq<ConnAction>, d: Conn)
    requires Reaches(NewConn(cfg), before, c) && Indexed(c) && !c.upgraded && CanAct(c, a) && ActOn(c, a).upgraded
    requires Reaches(ActOn(c, a), after, d)
    ensures var t := NextEvent(ParsedBy(c, a));
            && t.outcome.Got? && t.outcome.event.Head? && IsUpgrade(t.outcome.event.head)
            && d.framed == DataIn(after)
            && (BodyFree(t.outcome.event.head) ==> d.parser.buffer == t.next.buffer)
            && (d.framed == t.next.buffer + DataIn(after) <==> t.next.buffer == [])
  {
    hide ActOn, CanAct, SoundFor, Unfinished, Reaches, NextEvent, IsUpgrade, BodyFree;
    NewIsLive(cfg);
    RunKeepsLive(NewConn(cfg), before, c);
    RunFramesNothing(NewConn(cfg), before, c);
    ActionKeepsLive(c, a);
    ActionUpgrades(c, a);
    RunStaysUpgraded(ActOn(c, a), after, d);
    assert [] + DataIn(after) == DataIn(after);
    var behind := NextEvent(ParsedBy(c, a)).next.buffer;
    assert |behind + DataIn(after)| == |behind| + |DataIn(after)|;
  }
}
