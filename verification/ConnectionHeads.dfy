/** The response heads on the wire: each says what its own application said. */
module ConnectionHeads {
  import opened Bytes
  import opened ParserSpec
  import opened ExchangeSpec
  import opened ExchangeFraming
  import opened ExchangeResults
  import opened ResponseHeads
  import opened ConnectionSpec
  import opened ConnectionSafety
  import opened ConnectionRequests
  import opened LateSteps

  /** The first message with which the application of exchange `i` starts its response. */
  function FirstStartOf(actions: seq<ConnAction>, i: nat): (m: Option<SendMessage>)
    ensures m.Some? ==> m.value.ResponseStart?
  {
    if actions == [] then None
    else if actions[0].AppSend? && actions[0].i == i && actions[0].message.ResponseStart? then Some(actions[0].message)
    else FirstStartOf(actions[1..], i)
  }

  // -- what an exchange says --------------------------------------------------------------------

  function Saying(x: Exchange): Option<SendMessage> {
    if x.cycle.responseStarted then Some(ResponseStart(x.cycle.status, x.cycle.headers)) else None
  }

  function InLowerCase(m: Option<SendMessage>): Option<SendMessage>
    requires m.Some? ==> m.value.ResponseStart?
  {
    if m.None? then None else Some(ResponseStart(m.value.status, LowerNames(m.value.headers)))
  }

  /** Every exchange says what it said, and the new ones say nothing. */
  predicate SaysTheSame(before: seq<Exchange>, after: seq<Exchange>) {
    && |before| <= |after| && (forall i :: 0 <= i < |before| ==> Saying(after[i]) == Saying(before[i]))
    && forall i :: |before| <= i < |after| ==> Saying(after[i]) == None
  }

  lemma StillTheSame(a: seq<Exchange>, b: seq<Exchange>, c: seq<Exchange>)
    requires SaysTheSame(a, b) && SaysTheSame(b, c)
    ensures SaysTheSame(a, c)
  {
    hide Saying;
  }

  lemma ActSays(x: Exchange, a: Action)
    requires Enabled(x, a) && !(a.CallSend? && a.message.ResponseStart?)
    ensures Saying(Act(x, a)) == Saying(x)
  {
    match a
    case CallSend(m, shouldClose) =>
      if x.cycle.responseStarted && !x.cycle.responseComplete {
        if x.cycle.headWritten { NextBodyIs(x, m.body, m.more, shouldClose); } else { FirstBodyIs(x, m.body, m.more, shouldClose); }
      }
      hide SendBody;
    case CallReceive => hide Send;
    case _ => OthersAreAlike(x, a); hide Send, Poll;
  }

  lemma StepSays(c: Conn, i: nat, a: Action)
    requires i < |c.exchanges| && !(a.CallSend? && a.message.ResponseStart?)
    ensures SaysTheSame(c.exchanges, StepExchange(c, i, a).exchanges)
  {
    hide Act, Enabled, Saying;
    if Enabled(c.exchanges[i], a) { ActSays(c.exchanges[i], a); }
  }

  lemma EventSays(c: Conn, e: Event)
    requires Indexed(c)
    ensures SaysTheSame(c.exchanges, OnEvent(c, e).exchanges)
  {
    hide IsUpgrade, StepExchange;
    var d := c.(seen := c.seen + [e]);
    match e
    case Head(head) => assert Saying(NewExchange(head)) == None;
    case BodyData(data) => if c.current.Some? { StepSays(d, c.current.value, FeedBody(data)); }
    case EndOfMessage => if c.current.Some? { StepSays(d, c.current.value, FeedEom); }
  }

  lemma {:induction false} EventsSay(c: Conn, events: seq<Event>)
    requires Indexed(c)
    ensures SaysTheSame(c.exchanges, OnEvents(c, events).exchanges)
    decreases |events|
  {
    if events != [] {
      EventSays(c, events[0]);
      hide OnEvent, SaysTheSame;
      var d := OnEvent(c, events[0]);
      EventsSay(d, events[1..]);
      StillTheSame(c.exchanges, d.exchanges, OnEvents(d, events[1..]).exchanges);
    }
  }

  lemma ResumeSays(c: Conn)
    requires Indexed(c)
    ensures SaysTheSame(c.exchanges, ResumeParsing(c).exchanges)
  {
    hide Drain, OnEvents, Saying;
    var d := Drain(c.parser, false);
    EventsSay(c.(parser := d.next), d.events);
  }

  lemma CompleteSays(c: Conn, i: nat)
    requires Indexed(c) && i < |c.exchanges|
    ensures SaysTheSame(c.exchanges, OnResponseComplete(c, i).exchanges)
  {
    hide ResumeParsing, Saying;
    if c.current == Some(i) && c.parser.phase == Complete {
      ResumeSays(MaybeResumeReading(c.(current := None)).(parser := StartNext(c.parser)));
    }
  }

  lemma RespondSays(c: Conn, i: nat, m: SendMessage)
    requires Indexed(c) && i < |c.exchanges| && m.ResponseBody?
    ensures SaysTheSame(c.exchanges, Respond(c, i, m).exchanges)
  {
    hide Send, Act, Enabled, StepExchange, OnResponseComplete, SaysTheSame;
    Unmoved(c.exchanges);
    var s, a := Send(c.exchanges[i].cycle, m, ShouldClose(c)), CallSend(m, ShouldClose(c));
    if s.Sent? {
      StepSays(c, i, a);
      var e := StepExchange(c, i, a);
      assert Indexed(e) && |e.exchanges| == |c.exchanges| by { StepIsIndexed(c, i, a); }
      var d := Put(e, i, s.outputs);
      CompleteSays(d, i);
      StillTheSame(c.exchanges, d.exchanges, OnResponseComplete(d, i).exchanges);
    }
  }

  lemma Unmoved(x: seq<Exchange>)
    ensures SaysTheSame(x, x)
  {
  }

  lemma StepIsIndexed(c: Conn, i: nat, a: Action)
    requires Indexed(c) && i < |c.exchanges|
    ensures Indexed(StepExchange(c, i, a)) && |StepExchange(c, i, a).exchanges| == |c.exchanges|
  {
    hide Act, Enabled;
  }

  lemma PeerStepsSay(c: Conn, a: ConnAction)
    requires Indexed(c) && CanAct(c, a) && (a.DataReceived? || a.EofReceived? || a.ConnectionLost?)
    ensures SaysTheSame(c.exchanges, ActOn(c, a).exchanges)
  {
    hide ResumeParsing, StepExchange, SaysTheSame;
    Unmoved(c.exchanges);
    match a
    case DataReceived(data) => ResumeSays(c.(parser := Feed(c.parser, data), received := c.received + data));
    case EofReceived =>
      var d := c.(parser := c.parser.(eof := true), closing := true);
      ResumeSays(d);
      var e := ResumeParsing(d);
      if e.current.Some? {
        StepSays(e, e.current.value, OnDisconnect);
        StillTheSame(c.exchanges, e.exchanges, StepExchange(e, e.current.value, OnDisconnect).exchanges);
      }
    case ConnectionLost => if c.current.Some? { StepSays(c.(transport := Lost), c.current.value, OnDisconnect); }
  }

  /** Only the start of a response changes what is said. */
  lemma OtherStepsSay(c: Conn, a: ConnAction)
    requires Indexed(c) && CanAct(c, a) && !(a.AppSend? && a.message.ResponseStart?)
    ensures SaysTheSame(c.exchanges, ActOn(c, a).exchanges)
  {
    hide Respond, StepExchange, OnEof, OnData, Disconnect, BeginReceive, DeliversBody, SaysTheSame;
    Unmoved(c.exchanges);
    match a
    case AppReceive(i) => StepSays(c, i, CallReceive);
    case AppWake(i, w) => StepSays(c, i, Wake(w));
    case AppSend(i, m) => RespondSays(c, i, m);
    case AppEnd(i, raised) => RespondSays(c, i, ResponseBody([], false));
    case _ => if a.DataReceived? || a.EofReceived? || a.ConnectionLost? { PeerStepsSay(c, a); }
  }

  /** The start of a response is said by its own exchange, unless that has started. */
  lemma StartSays(c: Conn, i: nat, m: SendMessage)
    requires Indexed(c) && i < |c.exchanges| && m.ResponseStart? && (c.exchanges[i].cycle.responseComplete ==> c.exchanges[i].cycle.responseStarted)
    ensures var d := Respond(c, i, m);
            && |d.exchanges| == |c.exchanges|
            && Saying(d.exchanges[i]) == (if Saying(c.exchanges[i]).Some? then Saying(c.exchanges[i]) else InLowerCase(Some(m)))
            && forall j :: 0 <= j < |c.exchanges| && j != i ==> d.exchanges[j] == c.exchanges[j]
  {
    hide OnResponseComplete, SendBody, LowerNames;
  }

  /** What is said by each exchange follows from the messages of its application. */
  predicate SaysSo(c: Conn, actions: seq<ConnAction>) {
    forall i :: 0 <= i < |c.exchanges| ==> Saying(c.exchanges[i]) == InLowerCase(FirstStartOf(actions, i))
  }

  predicate StartedFirst(c: Conn) { forall i :: 0 <= i < |c.exchanges| ==> (c.exchanges[i].cycle.responseComplete ==> c.exchanges[i].cycle.responseStarted) }

  lemma {:induction false} FirstStartSnoc(actions: seq<ConnAction>, a: ConnAction, i: nat)
    ensures FirstStartOf(actions + [a], i) == if FirstStartOf(actions, i).Some? then FirstStartOf(actions, i) else FirstStartOf([a], i)
    decreases |actions|
  {
    if actions == [] {
      assert actions + [a] == [a];
    } else {
      assert (actions + [a])[1..] == actions[1..] + [a];
      FirstStartSnoc(actions[1..], a, i);
    }
  }

  /** No message before the exchange begins. */
  ghost predicate NoneYet(c: Conn, actions: seq<ConnAction>) { forall i: nat :: i >= |c.exchanges| ==> FirstStartOf(actions, i).None? }

  lemma ActionSaysSo(c: Conn, actions: seq<ConnAction>, a: ConnAction)
    requires Indexed(c) && CanAct(c, a) && SaysSo(c, actions) && NoneYet(c, actions) && StartedFirst(c)
    ensures SaysSo(ActOn(c, a), actions + [a]) && NoneYet(ActOn(c, a), actions + [a])
  {
    var d := ActOn(c, a);
    forall i ensures FirstStartOf(actions + [a], i) == if FirstStartOf(actions, i).Some? then FirstStartOf(actions, i) else FirstStartOf([a], i) {
      FirstStartSnoc(actions, a, i);
    }
    StartOfOne(a);
    if a.AppSend? && a.message.ResponseStart? {
      hide Respond, Saying, LowerNames, FirstStartOf;
      StartSays(c, a.i, a.message);
    } else {
      hide ActOn, CanAct, Saying, LowerNames, FirstStartOf;
      OtherStepsSay(c, a);
    }
  }

  lemma StartOfOne(a: ConnAction)
    ensures forall i :: FirstStartOf([a], i) == if a.AppSend? && a.i == i && a.message.ResponseStart? then Some(a.message) else None
  {
    assert [a][1..] == [];
  }

  lemma LivedStartedFirst(c: Conn)
    requires AllLived(c.exchanges)
    ensures StartedFirst(c)
  {
    hide Lived;
    forall i | 0 <= i < |c.exchanges| ensures c.exchanges[i].cycle.responseComplete ==> c.exchanges[i].cycle.responseStarted {
      LivedIsStarted(c.exchanges[i]);
    }
  }

  lemma {:induction false} RunSaysSo(start: Conn, before: seq<ConnAction>, actions: seq<ConnAction>, c: Conn)
    requires Indexed(start) && AllLived(start.exchanges) && SaysSo(start, before) && NoneYet(start, before)
    requires Reaches(start, actions, c)
    ensures SaysSo(c, before + actions)
    decreases |actions|
  {
    hide ActOn, CanAct, AllLived, SaysSo, NoneYet, StartedFirst;
    if actions == [] {
      assert before + actions == before;
    } else {
      var a := actions[0];
      LivedStartedFirst(start);
      ActionSaysSo(start, before, a);
      ActionKeepsLived(start, a);
      RunSaysSo(ActOn(start, a), before + [a], actions[1..], c);
      assert before + [a] + actions[1..] == before + actions;
    }
  }

  // -- the wire -----------------------------------------------------------------------------------

  lemma {:induction false} WritesAreOutputs(exchanges: seq<Exchange>, n: nat, w: Write)
    requires n <= |exchanges| && w in WritesOf(exchanges, n)
    ensures w.ByExchange? && w.index < n && w.output in exchanges[w.index].outputs
    decreases n
  {
    if n > 0 {
      if w in WritesOf(exchanges, n - 1) {
        WritesAreOutputs(exchanges, n - 1, w);
      } else {
        TaggedAreOutputs(n - 1, exchanges[n - 1].outputs, w);
      }
    }
  }

  lemma TaggedAreOutputs(i: nat, outputs: seq<Output>, w: Write)
    requires w in Tagged(i, outputs)
    ensures w.ByExchange? && w.index == i && w.output in outputs
  {
  }

  lemma WireIsOutputs(c: Conn, w: Write)
    requires InOrder(c.wire, c.exchanges) && w in c.wire && w.ByExchange?
    ensures w.index < |c.exchanges| && w.output in c.exchanges[w.index].outputs
  {
    var k: nat, n: nat, tail: seq<Write> :| Arranged(c.wire, c.exchanges, k, n, tail);
    hide WritesOf, AllComplete, Tagged;
    if w in WritesOf(c.exchanges, k) {
      WritesAreOutputs(c.exchanges, k, w);
    } else if k < |c.exchanges| && w in Tagged(k, c.exchanges[k].outputs[..n]) {
      TaggedAreOutputs(k, c.exchanges[k].outputs[..n], w);
    }
  }

  lemma OnlyHead(x: Exchange, o: Output)
    requires WellFramed(x) && o in x.outputs && o.ResponseHead?
    ensures HeadAt(x.outputs).Some? && o == HeadOf(x)
  {
    hide HeadFits, StreamOf, WireBody, Closing, HeadAt;
    var k :| 0 <= k < |x.outputs| && x.outputs[k] == o;
    var at := HeadAt(x.outputs).value;
    assert forall m :: at < m < |x.outputs| ==> x.outputs[m] == After(x.outputs)[m - at - 1];
  }

  /** An exchange that has lived carries what it says. */
  lemma LivedCarries(x: Exchange, m: SendMessage)
    requires Lived(x) && HeadAt(x.outputs).Some? && m.ResponseStart? && Saying(x) == InLowerCase(Some(m))
    ensures WellFramed(x) && Carries(HeadOf(x), m)
  {
    var head: RequestHead, steps: seq<Action> :| Reachable(NewExchange(head), steps, x);
    NewIsFramed(head);
    RunKeepsFramed(NewExchange(head), steps, x);
    HeadIsAsStarted(head, steps, x);
    RunFollows(NewExchange(head), steps, x, None);
    var n := FirstStart(steps).value;
    PassedIsKept(m.headers, m.status);
    PassedIsKept(n.headers, n.status);
    hide Reachable, WellFramed, LowerNames, KeptFields, Passed, HeadAt;
  }

  /** In every state that a run reaches: a response head on the wire carries the status and
      the fields of the first start that its own application sent, in order, and what the
      server adds. */
  lemma WireHeadsAreAsStarted(cfg: Config, actions: seq<ConnAction>, c: Conn, w: Write)
    requires Reaches(NewConn(cfg), actions, c) && w in c.wire && w.ByExchange? && w.output.ResponseHead?
    ensures var m := FirstStartOf(actions, w.index);
            m.Some? && Carries(w.output, m.value)
  {
    var start := NewConn(cfg);
    NewIsLive(cfg);
    RunKeepsLive(start, actions, c);
    LiveIsInOrder(c);
    RunKeepsLived(start, actions, c);
    RunSaysSo(start, [], actions, c);
    assert [] + actions == actions;
    hide Reaches, Live, InOrder, Carries, Lived, FirstStartOf, LowerNames;
    WireIsOutputs(c, w);
    var x := c.exchanges[w.index];
    LivedIsFramed(x);
    OnlyHead(x, w.output);
    WrittenIsSaid(x);
    LivedCarries(x, FirstStartOf(actions, w.index).value);
  }

  lemma LivedIsFramed(x: Exchange)
    requires Lived(x)
    ensures WellFramed(x)
  {
    var head: RequestHead, steps: seq<Action> :| Reachable(NewExchange(head), steps, x);
    NewIsFramed(head);
    RunKeepsFramed(NewExchange(head), steps, x);
    hide Reachable, WellFramed;
  }

  lemma WrittenIsSaid(x: Exchange)
    requires WellFramed(x) && HeadAt(x.outputs).Some?
    ensures Saying(x).Some?
  {
    hide HeadFits, StreamOf, WireBody, Closing, HeadAt, After;
  }
}
