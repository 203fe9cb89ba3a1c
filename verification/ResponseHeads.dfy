/** What the application says is what the exchange writes: the status and the fields of
    the message that starts the response, and the bodies of those that follow. */
module ResponseHeads {
  import opened Bytes
  import opened ParserSpec
  import opened ExchangeSpec
  import opened ExchangeFraming
  import opened ExchangeResults

  // -- what the application said -----------------------------------------------------------

  /** The first message that starts a response. */
  function FirstStart(actions: seq<Action>): (m: Option<SendMessage>)
    ensures m.Some? ==> m.value.ResponseStart?
  {
    if actions == [] then None
    else if actions[0].CallSend? && actions[0].message.ResponseStart? then Some(actions[0].message)
    else FirstStart(actions[1..])
  }

  /** The bodies that count: behind the start, up to the last one. */
  function BodiesIn(actions: seq<Action>, started: bool): seq<bytes> {
    if actions == [] then []
    else if !actions[0].CallSend? then BodiesIn(actions[1..], started)
    else
      match actions[0].message
      case ResponseStart(_, _) => BodiesIn(actions[1..], true)
      case ResponseBody(body, more) =>
        if !started then BodiesIn(actions[1..], false)
        else if more then [body] + BodiesIn(actions[1..], true)
        else [body]
  }

  /** Responses of this status say nothing of a length. */
  predicate Lengthless(status: int) { status < 200 || status == 204 || status == 304 }

  /** The application's fields that the peer gets: all but those about framing and the
      connection, names in lower case, values and order untouched. */
  function Passed(headers: seq<Header>, status: int): seq<Header> {
    if headers == [] then []
    else
      var name := Lower(headers[0].name);
      var dropped := name == Ascii("transfer-encoding") || name == Ascii("connection") || (name == Ascii("content-length") && Lengthless(status));
      (if dropped then [] else [Header(name, headers[0].value)]) + Passed(headers[1..], status)
  }

  /** A field of the server's own. */
  predicate IsServerField(h: Header) {
    h.name == Ascii("content-length") || h.name == Ascii("transfer-encoding") || h.name == Ascii("connection")
  }

  /** The head says what the start of the response said, and then what the server adds. */
  predicate Carries(head: Output, start: SendMessage)
    requires start.ResponseStart?
  {
    var passed := Passed(start.headers, start.status);
    && head.ResponseHead? && head.status == start.status
    && passed <= head.fields && forall i :: |passed| <= i < |head.fields| ==> IsServerField(head.fields[i])
  }

  // -- one head ------------------------------------------------------------------------------

  lemma {:induction false} KeptConcat(a: seq<Header>, b: seq<Header>, allow: bool)
    ensures KeptFields(a + b, allow) == KeptFields(a, allow) + KeptFields(b, allow)
    decreases |b|
  {
    if b == [] {
      assert a + b == a;
    } else {
      var n := |b| - 1;
      assert (a + b)[..|a| + n] == a + b[..n] && (a + b)[|a| + n] == b[n];
      KeptConcat(a, b[..n], allow);
    }
  }

  lemma {:induction false} PassedIsKept(headers: seq<Header>, status: int)
    ensures KeptFields(LowerNames(headers), AllowsContentLength(status)) == Passed(headers, status)
    decreases |headers|
  {
    if headers == [] {
      assert LowerNames(headers) == [];
    } else {
      var h := Header(Lower(headers[0].name), headers[0].value);
      var allow := AllowsContentLength(status);
      assert LowerNames(headers) == [h] + LowerNames(headers[1..]);
      PassedIsKept(headers[1..], status);
      KeptConcat([h], LowerNames(headers[1..]), allow);
      assert [h][..0] == [];
      hide Lower, Ascii, LowerNames;
      assert KeptFields([h], allow) == if h.name == TRANSFER_ENCODING || h.name == CONNECTION || (h.name == CONTENT_LENGTH && !allow) then [] else [h];
    }
  }

  lemma BuiltCarries(c: Cycle, n: nat, more: bool, shouldClose: bool, start: SendMessage)
    requires start.ResponseStart? && c.status == start.status && c.headers == LowerNames(start.headers)
    ensures Carries(BuildResponse(c, n, more, shouldClose).output, start)
  {
    PassedIsKept(start.headers, start.status);
    hide Passed, KeptFields, LowerNames, Ascii, Numeral;
  }

  lemma HeadStays(outputs: seq<Output>, more: seq<Output>)
    requires NoHead(more)
    ensures HeadAt(outputs + more) == HeadAt(outputs)
    ensures HeadAt(outputs).Some? ==> (outputs + more)[HeadAt(outputs).value] == outputs[HeadAt(outputs).value]
  {
    var all := outputs + more;
    hide HeadAt;
    assert forall i :: 0 <= i < |outputs| ==> all[i] == outputs[i];
    assert forall i :: |outputs| <= i < |all| ==> all[i] == more[i - |outputs|];
    if HeadAt(outputs).Some? { HeadAtIs(all, HeadAt(outputs).value); }
  }

  // -- over every run ---------------------------------------------------------------------------

  /** The exchange follows the message that started its response, if there was one. */
  predicate Follows(x: Exchange, m: Option<SendMessage>)
    requires m.Some? ==> m.value.ResponseStart?
  {
    && (x.cycle.responseStarted <==> m.Some?) && (x.cycle.responseComplete ==> x.cycle.responseStarted)
    && (m.Some? ==> x.cycle.status == m.value.status && x.cycle.headers == LowerNames(m.value.headers))
    && (HeadAt(x.outputs).Some? ==> m.Some? && Carries(HeadOf(x), m.value))
  }

  predicate SameSaid(c: Cycle, d: Cycle) {
    && d.responseStarted == c.responseStarted && d.responseComplete == c.responseComplete
    && d.status == c.status && d.headers == c.headers
  }

  lemma AlikeFollows(x: Exchange, y: Exchange, m: Option<SendMessage>, more: seq<Output>)
    requires m.Some? ==> m.value.ResponseStart?
    requires Follows(x, m) && SameSaid(x.cycle, y.cycle) && y.outputs == x.outputs + more && NoHead(more)
    ensures Follows(y, m)
  {
    HeadStays(x.outputs, more);
    hide HeadAt, Carries, LowerNames;
  }

  /** The start that holds behind one more step. */
  function StartBehind(m: Option<SendMessage>, a: Action): Option<SendMessage> {
    if m.None? && a.CallSend? && a.message.ResponseStart? then Some(a.message) else m
  }

  lemma OtherStepsFollow(x: Exchange, a: Action, m: Option<SendMessage>)
    requires m.Some? ==> m.value.ResponseStart?
    requires Follows(x, m) && Enabled(x, a) && !a.CallSend?
    ensures Follows(Act(x, a), m)
  {
    hide Follows;
    if a.CallReceive? {
      ReceiveSays(x);
      AlikeFollows(x, Act(x, a), m, BeginReceive(x.cycle).outputs);
    } else {
      OthersAreAlike(x, a);
      assert x.outputs + [] == x.outputs;
      AlikeFollows(x, Act(x, a), m, []);
    }
  }

  lemma ReceiveSays(x: Exchange)
    ensures var y, more := Act(x, CallReceive), BeginReceive(x.cycle).outputs;
            SameSaid(x.cycle, y.cycle) && y.outputs == x.outputs + more && NoHead(more)
  {
  }

  lemma StartFollows(x: Exchange, a: Action, m: Option<SendMessage>)
    requires m.Some? ==> m.value.ResponseStart?
    requires WellFramed(x) && Follows(x, m) && a.CallSend? && a.message.ResponseStart?
    ensures Follows(Act(x, a), StartBehind(m, a))
  {
    assert x.outputs + [] == x.outputs;
    hide HeadAt, Carries, LowerNames, HeadFits, After, StreamOf, WireBody, Closing, SendBody;
  }

  lemma BodyFollows(x: Exchange, a: Action, m: Option<SendMessage>)
    requires m.Some? ==> m.value.ResponseStart?
    requires WellFramed(x) && Follows(x, m) && a.CallSend? && a.message.ResponseBody?
    ensures Follows(Act(x, a), m)
  {
    var c, body, more := x.cycle, a.message.body, a.message.more;
    if c.responseStarted && !c.responseComplete {
      if c.headWritten {
        NextBodyIs(x, body, more, a.shouldClose);
        HeadStays(x.outputs, BodyOutputs(ModeOf(c), body, more));
      } else {
        var built := BuildResponse(c, |body|, more, a.shouldClose);
        FirstBodyIs(x, body, more, a.shouldClose);
        BuiltCarries(c, |body|, more, a.shouldClose, m.value);
        BuiltIsHead(c, |body|, more, a.shouldClose);
        AppendHead(x.outputs, built.output, BodyOutputs(ModeOf(Act(x, a).cycle), body, more));
      }
    }
    hide HeadAt, Carries, LowerNames, HeadFits, After, StreamOf, WireBody, Closing, SendBody, BuildResponse, BodyOutputs;
  }

  lemma NextBodyIs(x: Exchange, body: bytes, more: bool, shouldClose: bool)
    requires x.cycle.headWritten && x.cycle.responseStarted && !x.cycle.responseComplete
    ensures var y, out := Act(x, CallSend(ResponseBody(body, more), shouldClose)), BodyOutputs(ModeOf(x.cycle), body, more);
            y.cycle == x.cycle.(responseComplete := !more) && y.outputs == x.outputs + out && NoHead(out)
            && y.bodies == x.bodies + [body]
  {
    hide BuildResponse, BodyOutputs;
    assert [] + BodyOutputs(ModeOf(x.cycle), body, more) == BodyOutputs(ModeOf(x.cycle), body, more);
  }

  lemma FirstBodyIs(x: Exchange, body: bytes, more: bool, shouldClose: bool)
    requires !x.cycle.headWritten && x.cycle.responseStarted && !x.cycle.responseComplete
    ensures var y, built := Act(x, CallSend(ResponseBody(body, more), shouldClose)), BuildResponse(x.cycle, |body|, more, shouldClose);
            var out := BodyOutputs(ModeOf(y.cycle), body, more);
            && y.outputs == x.outputs + ([built.output] + out) && NoHead(out) && y.bodies == x.bodies + [body]
            && y.cycle.responseStarted && y.cycle.responseComplete == !more && y.cycle.status == x.cycle.status
            && y.cycle.headers == x.cycle.headers
  {
    hide BodyOutputs, KeptFields, LengthFields, ConnectionFields, ChooseLength, AsksToClose;
  }

  lemma ActFollows(x: Exchange, a: Action, m: Option<SendMessage>)
    requires m.Some? ==> m.value.ResponseStart?
    requires WellFramed(x) && Follows(x, m) && Enabled(x, a)
    ensures Follows(Act(x, a), StartBehind(m, a))
  {
    hide Follows, WellFramed, Act;
    if !a.CallSend? { OtherStepsFollow(x, a, m); }
    else if a.message.ResponseStart? { StartFollows(x, a, m); }
    else { BodyFollows(x, a, m); }
  }

  lemma {:induction false} RunFollows(start: Exchange, actions: seq<Action>, x: Exchange, m: Option<SendMessage>)
    requires m.Some? ==> m.value.ResponseStart?
    requires WellFramed(start) && Follows(start, m) && Reachable(start, actions, x)
    ensures Follows(x, if m.Some? then m else FirstStart(actions))
    decreases |actions|
  {
    hide Follows, WellFramed, Act, Enabled;
    if actions != [] {
      ActKeepsFramed(start, actions[0]);
      ActFollows(start, actions[0], m);
      RunFollows(Act(start, actions[0]), actions[1..], x, StartBehind(m, actions[0]));
    }
  }

  /** In every run: the head that is written carries the status and the fields of the
      first message that starts a response. */
  lemma HeadIsAsStarted(head: RequestHead, actions: seq<Action>, x: Exchange)
    requires Reachable(NewExchange(head), actions, x) && HeadAt(x.outputs).Some?
    ensures FirstStart(actions).Some? && Carries(HeadOf(x), FirstStart(actions).value)
  {
    NewIsFramed(head);
    RunFollows(NewExchange(head), actions, x, None);
    hide Carries, LowerNames, HeadAt;
  }

  // -- the bodies ------------------------------------------------------------------------------

  lemma ActSends(x: Exchange, a: Action)
    requires Enabled(x, a) && (x.cycle.responseComplete ==> x.cycle.responseStarted)
    ensures var y, c := Act(x, a), x.cycle;
            if !a.CallSend? then y.bodies == x.bodies && SameSaid(c, y.cycle)
            else if a.message.ResponseStart? then
              y.bodies == x.bodies && y.cycle.responseStarted && y.cycle.responseComplete == c.responseComplete
            else if c.responseStarted && !c.responseComplete then
              y.bodies == x.bodies + [a.message.body] && y.cycle.responseStarted && y.cycle.responseComplete == !a.message.more
            else y == x
  {
    if a.CallSend? {
      if a.message.ResponseBody? && x.cycle.responseStarted && !x.cycle.responseComplete {
        if x.cycle.headWritten { NextBodyIs(x, a.message.body, a.message.more, a.shouldClose); }
        else { FirstBodyIs(x, a.message.body, a.message.more, a.shouldClose); }
      }
      hide SendBody;
    } else if a.CallReceive? {
      ReceiveSays(x);
    } else {
      OthersAreAlike(x, a);
      hide Poll;
    }
  }

  lemma {:induction false} RunSends(start: Exchange, actions: seq<Action>, x: Exchange)
    requires Reachable(start, actions, x) && (start.cycle.responseComplete ==> start.cycle.responseStarted)
    ensures x.bodies == start.bodies + if start.cycle.responseComplete then [] else BodiesIn(actions, start.cycle.responseStarted)
    decreases |actions|
  {
    if actions == [] {
      assert start.bodies + [] == start.bodies;
    } else {
      ActSends(start, actions[0]);
      hide Act, Enabled;
      RunSends(Act(start, actions[0]), actions[1..], x);
    }
  }

  /** In every run: the bodies that the framing is about are those the application sent. */
  lemma BodiesAreAsSent(head: RequestHead, actions: seq<Action>, x: Exchange)
    requires Reachable(NewExchange(head), actions, x)
    ensures x.bodies == BodiesIn(actions, false)
  {
    RunSends(NewExchange(head), actions, x);
    assert [] + BodiesIn(actions, false) == BodiesIn(actions, false);
  }

  // -- the interim response ---------------------------------------------------------------------

  /** Some call asks for the body before the response is complete. */
  ghost predicate Asks(start: Exchange, actions: seq<Action>)
    decreases |actions|
  {
    && actions != [] && Enabled(start, actions[0])
    && ((actions[0].CallReceive? && !start.cycle.responseComplete) || Asks(Act(start, actions[0]), actions[1..]))
  }

  lemma ActContinues(x: Exchange, a: Action)
    requires Enabled(x, a)
    ensures Act(x, a).cycle.continueSent <==> x.cycle.continueSent || (a.CallReceive? && !x.cycle.responseComplete)
  {
    match a
    case CallSend(m, shouldClose) =>
      assert Send(x.cycle, m, shouldClose).Sent? ==> SameRequest(x.cycle, Send(x.cycle, m, shouldClose).next);
      hide Send;
    case _ => hide Send;
  }

  lemma {:induction false} RunContinues(start: Exchange, actions: seq<Action>, x: Exchange)
    requires Reachable(start, actions, x)
    ensures x.cycle.continueSent <==> start.cycle.continueSent || Asks(start, actions)
    decreases |actions|
  {
    if actions != [] {
      ActContinues(start, actions[0]);
      hide Act, Enabled;
      RunContinues(Act(start, actions[0]), actions[1..], x);
    }
  }

  /** In every run: one interim response if the client waits for it and the application
      asks for the body in time, and none otherwise. */
  lemma ContinueIsSentIff(head: RequestHead, actions: seq<Action>, x: Exchange)
    requires Reachable(NewExchange(head), actions, x)
    ensures Interims(x.outputs) == if head.expectContinue && Asks(NewExchange(head), actions) then 1 else 0
  {
    NewIsConserved(head);
    RunKeepsConserved(NewExchange(head), actions, x);
    RunKeepsHead(NewExchange(head), actions, x);
    RunContinues(NewExchange(head), actions, x);
    hide Asks, Interims, Reachable;
  }

  // -- whether the connection is kept --------------------------------------------------------------

  /** Some `connection` field of the application's contains "close", in any case. */
  predicate SaysToClose(headers: seq<Header>) {
    exists i :: 0 <= i < |headers| && Lower(headers[i].name) == Ascii("connection") && Find(Lower(headers[i].value), Ascii("close")).Some?
  }

  predicate GivesLength(headers: seq<Header>) { exists i :: 0 <= i < |headers| && Lower(headers[i].name) == Ascii("content-length") }

  /** The end of the body shows without the connection closing. */
  predicate ShowsItsEnd(verb: bytes, version: Version, start: SendMessage, more: bool)
    requires start.ResponseStart?
  {
    || verb == Ascii("HEAD") || Lengthless(start.status) || !more || version == Http11 || GivesLength(start.headers)
  }

  lemma LoweredFields(headers: seq<Header>)
    ensures AsksToClose(LowerNames(headers)) <==> SaysToClose(headers)
    ensures HasField(LowerNames(headers), CONTENT_LENGTH) <==> GivesLength(headers)
  {
    hide Lower, Find, Ascii;
    var low := LowerNames(headers);
    assert forall i :: 0 <= i < |headers| ==> low[i] == Header(Lower(headers[i].name), headers[i].value);
    if i :| 0 <= i < |low| && low[i].name == CONNECTION && Find(Lower(low[i].value), CLOSE).Some? {
      assert Lower(headers[i].name) == Ascii("connection");
    }
    if i :| 0 <= i < |headers| && Lower(headers[i].name) == Ascii("connection") && Find(Lower(headers[i].value), Ascii("close")).Some? {
      assert low[i].name == CONNECTION;
    }
    if i :| 0 <= i < |low| && low[i].name == CONTENT_LENGTH {
      assert Lower(headers[i].name) == Ascii("content-length");
    }
    if i :| 0 <= i < |headers| && Lower(headers[i].name) == Ascii("content-length") {
      assert low[i].name == CONTENT_LENGTH;
    }
  }

  /** Until the head is written the request decides. */
  predicate Undecided(x: Exchange) { !x.cycle.headWritten ==> x.cycle.keepAlive == x.cycle.head.keepAlive }

  lemma ActKeepsDecision(x: Exchange, a: Action)
    requires Enabled(x, a) && Undecided(x)
    ensures Undecided(Act(x, a))
    ensures x.cycle.headWritten ==> Act(x, a).cycle.headWritten && Act(x, a).cycle.keepAlive == x.cycle.keepAlive
  {
    match a
    case CallSend(_, _) => hide BuildResponse, BodyOutputs, LowerNames;
    case CallReceive => hide Send;
    case _ => OthersAreAlike(x, a); hide Send, Poll;
  }

  lemma {:induction false} RunKeepsDecision(start: Exchange, actions: seq<Action>, x: Exchange)
    requires Undecided(start) && Reachable(start, actions, x)
    ensures Undecided(x)
    ensures start.cycle.headWritten ==> x.cycle.headWritten && x.cycle.keepAlive == start.cycle.keepAlive
    decreases |actions|
  {
    hide Act, Enabled, Undecided;
    if actions != [] {
      ActKeepsDecision(start, actions[0]);
      RunKeepsDecision(Act(start, actions[0]), actions[1..], x);
    }
  }

  lemma BuiltKeepsIff(c: Cycle, n: nat, more: bool, shouldClose: bool, start: SendMessage)
    requires start.ResponseStart? && c.status == start.status && c.headers == LowerNames(start.headers)
    ensures BuildResponse(c, n, more, shouldClose).next.keepAlive <==>
            && c.keepAlive && !SaysToClose(start.headers) && ShowsItsEnd(c.head.verb, c.head.version, start, more)
            && c.bodyComplete && !shouldClose
  {
    LoweredFields(start.headers);
    hide LowerNames, KeptFields, AsksToClose, SaysToClose, HasField, GivesLength, Ascii, Numeral;
  }

  /** The first message with a body decides whether the connection is kept: exactly when
      the client allows it, the application does not ask to close, the end of the response
      shows, the request has been read to its end, and the server is not shutting down.
      No later step changes that. */
  lemma KeptIff(head: RequestHead, actions: seq<Action>, x: Exchange, a: Action, after: seq<Action>, y: Exchange)
    requires Reachable(NewExchange(head), actions, x) && x.cycle.responseStarted && !x.cycle.headWritten && !x.cycle.responseComplete
    requires a.CallSend? && a.message.ResponseBody? && Reachable(Act(x, a), after, y)
    ensures FirstStart(actions).Some?
    ensures var start := FirstStart(actions).value;
            y.cycle.keepAlive <==>
              && head.keepAlive && !SaysToClose(start.headers) && ShowsItsEnd(head.verb, head.version, start, a.message.more)
              && x.cycle.bodyComplete && !a.shouldClose
  {
    NewIsFramed(head);
    RunFollows(NewExchange(head), actions, x, None);
    RunKeepsHead(NewExchange(head), actions, x);
    RunKeepsDecision(NewExchange(head), actions, x);
    hide Reachable, LowerNames, HeadAt, SaysToClose, ShowsItsEnd, BuildResponse;
    BuiltKeepsIff(x.cycle, |a.message.body|, a.message.more, a.shouldClose, FirstStart(actions).value);
    FirstBodyDecides(x, a);
    RunKeepsDecision(Act(x, a), after, y);
  }

  lemma FirstBodyDecides(x: Exchange, a: Action)
    requires x.cycle.responseStarted && !x.cycle.headWritten && !x.cycle.responseComplete
    requires a.CallSend? && a.message.ResponseBody?
    ensures var y := Act(x, a);
            y.cycle.headWritten && y.cycle.keepAlive == BuildResponse(x.cycle, |a.message.body|, a.message.more, a.shouldClose).next.keepAlive
  {
    hide BodyOutputs, BuildResponse;
  }

  // -- what a call is told ------------------------------------------------------------------------------

  /** What a call waits for tells what had happened when it was made. */
  predicate CallsFit(x: Exchange) {
    && (Returns in x.calls ==> x.cycle.responseComplete) && (ForEnd in x.calls ==> x.cycle.bodyFinished)
    && (x.cycle.bodyFinished ==> x.cycle.bodyComplete)
  }

  lemma ActKeepsCalls(x: Exchange, a: Action)
    requires Enabled(x, a) && CallsFit(x)
    ensures CallsFit(Act(x, a))
  {
    match a
    case CallSend(m, shouldClose) =>
      SendKeepsComplete(x, m, shouldClose);
      assert Send(x.cycle, m, shouldClose).Sent? ==> SameRequest(x.cycle, Send(x.cycle, m, shouldClose).next);
      hide Send;
    case _ => hide Send;
  }

  lemma SendKeepsComplete(x: Exchange, m: SendMessage, shouldClose: bool)
    ensures x.cycle.responseComplete ==> Send(x.cycle, m, shouldClose).SendRaises?
  {
  }

  lemma {:induction false} RunKeepsCalls(start: Exchange, actions: seq<Action>, x: Exchange)
    requires CallsFit(start) && Reachable(start, actions, x)
    ensures CallsFit(x)
    decreases |actions|
  {
    hide Act, Enabled, CallsFit;
    if actions != [] {
      ActKeepsCalls(start, actions[0]);
      RunKeepsCalls(Act(start, actions[0]), actions[1..], x);
    }
  }

  /** In every run: a call that returns is handed all that is buffered, and told that more
      will come exactly while the body has not ended; or it is told of a disconnect, and
      then the peer is gone with nothing left to hand over, or the response is complete,
      or the peer is gone and the end had been told. */
  lemma CallsAreToldTheTruth(head: RequestHead, actions: seq<Action>, x: Exchange, w: Waiting)
    requires Reachable(NewExchange(head), actions, x) && Enabled(x, Wake(w))
    ensures var c, message := x.cycle, Poll(x.cycle, w).message;
            match message
            case RequestBody(body, more) => w == ForBody && body == c.body && (more <==> !c.bodyComplete) && (body != [] || c.bodyComplete)
            case Disconnected =>
              || c.responseComplete
              || (c.disconnected && c.body == [] && !c.bodyComplete)
              || (c.disconnected && w == ForEnd && x.finals > 0)
  {
    RunKeepsCalls(NewExchange(head), actions, x);
    NewIsConserved(head);
    RunKeepsConserved(NewExchange(head), actions, x);
    hide Reachable, Interims;
  }

  // -- the whole head ------------------------------------------------------------------------------

  /** Where the body is not sent, whatever its length. */
  predicate SendsNoBody(verb: bytes, status: int) { verb == Ascii("HEAD") || Lengthless(status) }

  /** How the server delimits the body: not at all where the application did, or where
      there is none; by its length where the first message is the last; in chunks, or by
      closing, where more follow. */
  function LengthPart(verb: bytes, version: Version, start: SendMessage, n: nat, more: bool): seq<Header>
    requires start.ResponseStart?
  {
    if !Lengthless(start.status) && GivesLength(start.headers) then []
    else if SendsNoBody(verb, start.status) then
      if !Lengthless(start.status) && !more then [Header(Ascii("content-length"), Numeral(n, 10))] else []
    else if !more then [Header(Ascii("content-length"), Numeral(n, 10))]
    else if version == Http11 then [Header(Ascii("transfer-encoding"), Ascii("chunked"))]
    else []
  }

  function ConnectionPart(alive: bool, version: Version): seq<Header> {
    if !alive then [Header(Ascii("connection"), Ascii("close"))]
    else if version == Http10 then [Header(Ascii("connection"), Ascii("keep-alive"))]
    else []
  }

  lemma BuiltIsExact(c: Cycle, n: nat, more: bool, shouldClose: bool, start: SendMessage)
    requires start.ResponseStart? && c.status == start.status && c.headers == LowerNames(start.headers)
    ensures var b := BuildResponse(c, n, more, shouldClose);
            && b.output.status == start.status
            && b.output.fields == Passed(start.headers, start.status)
                                  + LengthPart(c.head.verb, c.head.version, start, n, more)
                                  + ConnectionPart(b.next.keepAlive, c.head.version)
  {
    PassedIsKept(start.headers, start.status);
    LoweredFields(start.headers);
    hide Passed, KeptFields, LowerNames, AsksToClose, SaysToClose, HasField, GivesLength, Ascii, Numeral;
  }

  /** The first message with a body writes the head, and it is just this. */
  lemma HeadIsExact(head: RequestHead, actions: seq<Action>, x: Exchange, a: Action)
    requires Reachable(NewExchange(head), actions, x) && x.cycle.responseStarted && !x.cycle.headWritten && !x.cycle.responseComplete
    requires a.CallSend? && a.message.ResponseBody?
    ensures FirstStart(actions).Some? && HeadAt(Act(x, a).outputs).Some?
    ensures var start, y, h := FirstStart(actions).value, Act(x, a), HeadOf(Act(x, a));
            && h.ResponseHead? && h.status == start.status
            && h.fields == Passed(start.headers, start.status)
                           + LengthPart(head.verb, head.version, start, |a.message.body|, a.message.more)
                           + ConnectionPart(y.cycle.keepAlive, head.version)
  {
    NewIsFramed(head);
    RunKeepsFramed(NewExchange(head), actions, x);
    RunFollows(NewExchange(head), actions, x, None);
    RunKeepsHead(NewExchange(head), actions, x);
    var body, more := a.message.body, a.message.more;
    FirstBodyIs(x, body, more, a.shouldClose);
    FirstBodyDecides(x, a);
    BuiltIsHead(x.cycle, |body|, more, a.shouldClose);
    BuiltIsExact(x.cycle, |body|, more, a.shouldClose, FirstStart(actions).value);
    NotWritten(x);
    AppendHead(x.outputs, BuildResponse(x.cycle, |body|, more, a.shouldClose).output, BodyOutputs(ModeOf(Act(x, a).cycle), body, more));
    hide Reachable, WellFramed, HeadAt, BuildResponse, Passed, LengthPart, ConnectionPart, LowerNames, Act, BodyOutputs, Carries;
  }

  lemma NotWritten(x: Exchange)
    requires WellFramed(x) && !x.cycle.headWritten
    ensures HeadAt(x.outputs).None?
  {
    hide HeadFits, StreamOf, WireBody, Closing, HeadAt;
  }

  /** A head that is written stays. */
  lemma ActKeepsHeadWritten(x: Exchange, a: Action)
    requires WellFramed(x) && HeadAt(x.outputs).Some? && Enabled(x, a)
    ensures HeadAt(Act(x, a).outputs).Some? && HeadOf(Act(x, a)) == HeadOf(x)
  {
    IsWrittenHead(x);
    assert x.outputs + [] == x.outputs;
    hide HeadAt, WellFramed, BodyOutputs, BuildResponse;
    if a.CallReceive? {
      ReceiveSays(x);
      HeadStays(x.outputs, BeginReceive(x.cycle).outputs);
    } else if !a.CallSend? {
      OthersAreAlike(x, a);
    } else if a.message.ResponseBody? && !x.cycle.responseComplete {
      NextBodyIs(x, a.message.body, a.message.more, a.shouldClose);
      HeadStays(x.outputs, BodyOutputs(ModeOf(x.cycle), a.message.body, a.message.more));
    }
    hide BeginReceive, LowerNames;
  }

  lemma IsWrittenHead(x: Exchange)
    requires WellFramed(x) && HeadAt(x.outputs).Some?
    ensures x.cycle.headWritten && x.cycle.responseStarted
  {
    hide HeadFits, StreamOf, WireBody, Closing, HeadAt;
  }

  lemma {:induction false} HeadNeverChanges(start: Exchange, actions: seq<Action>, x: Exchange)
    requires WellFramed(start) && HeadAt(start.outputs).Some? && Reachable(start, actions, x)
    ensures HeadAt(x.outputs).Some? && HeadOf(x) == HeadOf(start)
    decreases |actions|
  {
    hide WellFramed, Act, Enabled, HeadAt;
    if actions != [] {
      ActKeepsFramed(start, actions[0]);
      ActKeepsHeadWritten(start, actions[0]);
      HeadNeverChanges(Act(start, actions[0]), actions[1..], x);
    }
  }

  // -- which messages are taken -------------------------------------------------------------------------

  /** A start, then bodies, and nothing behind the last one. */
  predicate InGrammar(ms: seq<SendMessage>) {
    && (ms != [] ==> ms[0].ResponseStart?)
    && (forall i :: 1 <= i < |ms| ==> ms[i].ResponseBody?)
    && forall i :: 1 <= i < |ms| - 1 ==> ms[i].more
  }

  /** The messages that are taken in a run. */
  ghost function Taken(start: Exchange, actions: seq<Action>): seq<SendMessage>
    decreases |actions|
  {
    if actions == [] || !Enabled(start, actions[0]) then []
    else
      var a := actions[0];
      (if a.CallSend? && Send(start.cycle, a.message, a.shouldClose).Sent? then [a.message] else [])
      + Taken(Act(start, a), actions[1..])
  }

  /** The exchange is where these messages leave it. */
  predicate StandsAt(c: Cycle, ms: seq<SendMessage>) {
    && InGrammar(ms) && (c.responseStarted <==> ms != [])
    && (c.responseComplete <==> |ms| > 1 && !ms[|ms| - 1].more)
  }

  lemma SendFollowsGrammar(c: Cycle, ms: seq<SendMessage>, m: SendMessage, shouldClose: bool)
    requires StandsAt(c, ms)
    ensures var s := Send(c, m, shouldClose);
            && (s.Sent? <==> InGrammar(ms + [m]))
            && (s.Sent? ==> StandsAt(s.next, ms + [m]))
  {
    GrammarGoesOnIff(ms, m);
    SendGoesOnIff(c, m, shouldClose);
    hide InGrammar, Send;
  }

  lemma GrammarGoesOnIff(ms: seq<SendMessage>, m: SendMessage)
    requires InGrammar(ms)
    ensures InGrammar(ms + [m]) <==> if ms == [] then m.ResponseStart? else m.ResponseBody? && (|ms| > 1 ==> ms[|ms| - 1].more)
  {
    var n := |ms|;
    assert forall i :: 0 <= i < n ==> (ms + [m])[i] == ms[i];
    assert (ms + [m])[n] == m;
  }

  lemma SendGoesOnIff(c: Cycle, m: SendMessage, shouldClose: bool)
    ensures var s := Send(c, m, shouldClose);
            && (s.Sent? <==> !c.responseComplete && if c.responseStarted then m.ResponseBody? else m.ResponseStart?)
            && (s.Sent? ==> s.next.responseStarted
                            && (s.next.responseComplete <==> m.ResponseBody? && !m.more))
  {
    hide BuildResponse, BodyOutputs, LowerNames;
    BuiltStarted(c, if m.ResponseBody? then |m.body| else 0, m.ResponseBody? && m.more, shouldClose);
  }

  lemma BuiltStarted(c: Cycle, n: nat, more: bool, shouldClose: bool)
    ensures BuildResponse(c, n, more, shouldClose).next.responseStarted == c.responseStarted
  {
    hide KeptFields, LengthFields, ConnectionFields, ChooseLength, AsksToClose;
  }

  lemma OthersStandStill(x: Exchange, a: Action)
    requires Enabled(x, a) && !a.CallSend?
    ensures SameSaid(x.cycle, Act(x, a).cycle)
  {
    if a.CallReceive? { ReceiveSays(x); } else { OthersAreAlike(x, a); }
    hide Poll, BeginReceive;
  }

  lemma {:induction false} RunFollowsGrammar(start: Exchange, actions: seq<Action>, x: Exchange, before: seq<SendMessage>)
    requires StandsAt(start.cycle, before) && Reachable(start, actions, x)
    ensures StandsAt(x.cycle, before + Taken(start, actions))
    decreases |actions|
  {
    hide Enabled, InGrammar, Send;
    if actions == [] {
      assert before + [] == before;
    } else {
      var a := actions[0];
      if a.CallSend? {
        SendFollowsGrammar(start.cycle, before, a.message, a.shouldClose);
        SentIsNext(start, a.message, a.shouldClose);
        hide Act, StandsAt;
        if Send(start.cycle, a.message, a.shouldClose).Sent? {
          RunFollowsGrammar(Act(start, a), actions[1..], x, before + [a.message]);
          assert before + [a.message] + Taken(Act(start, a), actions[1..]) == before + ([a.message] + Taken(Act(start, a), actions[1..]));
        } else {
          RunFollowsGrammar(Act(start, a), actions[1..], x, before);
          assert [] + Taken(Act(start, a), actions[1..]) == Taken(Act(start, a), actions[1..]);
        }
      } else {
        OthersStandStill(start, a);
        hide Act;
        RunFollowsGrammar(Act(start, a), actions[1..], x, before);
        assert [] + Taken(Act(start, a), actions[1..]) == Taken(Act(start, a), actions[1..]);
      }
    }
  }

  lemma SentIsNext(x: Exchange, m: SendMessage, shouldClose: bool)
    ensures var s, y := Send(x.cycle, m, shouldClose), Act(x, CallSend(m, shouldClose));
            (s.Sent? ==> y.cycle == s.next) && (s.SendRaises? ==> y == x)
  {
    hide Send;
  }

  /** In every run: the messages that are taken are a start, then bodies, up to the last
      one; and `send` raises exactly on a message that would not go on like this. */
  lemma SendRaisesIff(head: RequestHead, actions: seq<Action>, x: Exchange, m: SendMessage, shouldClose: bool)
    requires Reachable(NewExchange(head), actions, x)
    ensures InGrammar(Taken(NewExchange(head), actions))
    ensures Send(x.cycle, m, shouldClose).SendRaises? <==> !InGrammar(Taken(NewExchange(head), actions) + [m])
  {
    RunFollowsGrammar(NewExchange(head), actions, x, []);
    assert [] + Taken(NewExchange(head), actions) == Taken(NewExchange(head), actions);
    SendFollowsGrammar(x.cycle, Taken(NewExchange(head), actions), m, shouldClose);
    hide Reachable, Taken, Send;
  }
}
