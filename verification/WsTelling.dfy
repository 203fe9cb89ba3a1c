/** What the application hears of the end, and which answer the handshake gets. */
module WsTelling {
  import opened Bytes
  import opened WsFrames
  import opened WsSpec
  import opened WsSafety
  import opened WsReassembly
  import opened WsRuns
  import opened WsSending
  import WsHandshake

  // -- what the application is told ---------------------------------------------------------------

  /** The code with which the application hears that reading has ended the connection: that
      of the peer's close, 1005 for an empty one, or that of the failure. */
  function Told(t: seq<Frame>, frames: seq<Frame>, error: Option<nat>, maxSize: nat): Option<nat>
    decreases |frames|
  {
    if frames == [] then error
    else
      match GoesOn(t, frames[0], maxSize)
      case Some(next) => Told(next, frames[1..], error, maxSize)
      case None => Some(ToldOf(t, frames[0], maxSize))
  }

  function ToldOf(t: seq<Frame>, f: Frame, maxSize: nat): nat {
    if f.opcode == OP_CLOSE then
      if CloseReply(f.payload).CloseWith? then CloseReply(f.payload).code
      else if f.payload == [] then 1005
      else Number(f.payload[..2])
    else if DataFailure(t, f, maxSize).Some? then DataFailure(t, f, maxSize).value
    else 0
  }

  /** The last thing in the queue is that the connection ended with this code. */
  predicate EndsWith(w: Ws, code: nat) { w.incoming != [] && w.incoming[|w.incoming| - 1] == Disconnect(code) }

  lemma FailTells(w: Ws, code: nat, reason: bytes)
    requires !w.disconnected
    ensures EndsWith(Fail(w, code, reason), code) && Fail(w, code, reason).closed
  {
    hide ClosePayload;
  }

  lemma EchoTells(w: Ws, code: nat, reason: bytes)
    ensures EndsWith(EchoClose(w, code, reason), code)
  {
    hide ClosePayload;
  }

  lemma HandledTells(w: Ws, t: seq<Frame>, f: Frame)
    requires Holds(w, t) && w.wire.open && Checked(f, w.maxMessageSize) && !w.disconnected
    ensures var r := HandleFrame(w, f);
            var v := if r.Violated? then Fail(r.next, r.error.Code(), r.error.Reason()) else r.next;
            if GoesOn(t, f, w.maxMessageSize).None? then EndsWith(v, ToldOf(t, f, w.maxMessageSize)) else !v.disconnected
  {
    var r := HandleFrame(w, f);
    OpenType(w, t);
    hide Holds, EndsWith;
    if f.IsControl() {
      ControlReplies(w, f);
      ControlTells(w, f);
    } else {
      DataReplies(w, t, f);
      DataOnlyQueues(w, f);
    }
    if r.Violated? { FailTells(r.next, r.error.Code(), r.error.Reason()); }
    hide Fail, HandleData, HandleControl, DataFailure, CloseReply, SaysAll, SentFrames;
  }

  lemma ControlTells(w: Ws, f: Frame)
    requires f.IsControl() && !w.disconnected
    ensures var r := HandleControl(w, f);
            && (r.Violated? ==> r.next == w)
            && (r.Fine? && f.opcode == OP_CLOSE ==> EndsWith(r.next, if f.payload == [] then 1005 else if |f.payload| >= 2 then Number(f.payload[..2]) else 0))
            && (r.Fine? && f.opcode != OP_CLOSE ==> !r.next.disconnected)
  {
    hide ValidUtf8, EchoClose, EndsWith;
    if f.opcode == OP_CLOSE && ParseClose(f.payload).GoodClose? {
      EchoTells(w, ParseClose(f.payload).code, ParseClose(f.payload).reason);
      if f.payload != [] { TwoBytes(f.payload[..2]); }
    }
    hide FromBytes, Number, ToBytes;
  }

  lemma {:induction false} FeedTells(w: Ws, t: seq<Frame>)
    requires Holds(w, t) && w.wire.open && !w.disconnected
    ensures var d := DrainFrames(w.buffer, w.maxMessageSize);
            match Told(t, d.frames, CodeOf(d.error), w.maxMessageSize)
            case None => !FeedLoop(w).disconnected
            case Some(code) => EndsWith(FeedLoop(w), code)
    decreases |w.buffer|
  {
    var max := w.maxMessageSize;
    FrameShortens(w.buffer, max);
    FrameIsChecked(w.buffer, max);
    DrainFramesStep(w.buffer, max);
    OpenType(w, t);
    hide NextFrame, Fail, HandleFrame, Holds, Checked, GoesOn, ToldOf, PauseIfBehind, EndsWith;
    match NextFrame(w.buffer, max)
    case NoFrame =>
    case BadFrame(e) => FailTells(w, e.Code(), e.Reason());
    case GotFrame(f, rest) =>
      var v := w.(buffer := rest);
      HoldsIgnoresBuffer(w, t, rest);
      HandledReplies(v, t, f);
      HandledTells(v, t, f);
      FeedLoopStep(w, f, rest);
      var r := HandleFrame(v, f);
      assert SameRest(v, r.next);
      if GoesOn(t, f, max).Some? {
        var next := GoesOn(t, f, max).value;
        PauseHolds(r.next, next);
        PauseSays(r.next);
        PauseTells(r.next);
        FeedTells(PauseIfBehind(r.next), next);
      }
  }

  lemma PauseTells(w: Ws)
    ensures PauseIfBehind(w).disconnected == w.disconnected
  {
  }

  /** Bytes that end an open cycle: the application hears the code that the peer's own bytes
      give; and the loss of the connection is told as 1006, unless an end was told before. */
  lemma EndIsTold(maxMessageSize: nat, answer: Answer, actions: seq<Action>, w: Ws, data: bytes)
    requires Reachable(Fresh(maxMessageSize, answer), actions, w) && w.wire.open && !w.closed && !w.disconnected
    ensures Legible(Fed(actions), maxMessageSize)
    ensures var stream := Fed(actions);
            var d := DrainFrames(DrainFrames(stream, maxMessageSize).rest + data, maxMessageSize);
            match Told(AssembledFrom(stream, maxMessageSize).tail, d.frames, CodeOf(d.error), maxMessageSize)
            case None => !FeedData(w, data).disconnected
            case Some(code) => EndsWith(FeedData(w, data), code)
    ensures EndsWith(ConnectionLost(w), 1006)
  {
    var start, stream := Fresh(maxMessageSize, answer), Fed(actions);
    FreshIsExact(maxMessageSize, answer);
    RunIsExact(start, [], actions, w);
    RunKeepsSize(start, actions, w);
    assert [] + stream == stream;
    hide Reachable, DrainFrames, Legible, AssembledFrom, Holds, Told, FeedLoop;
    HoldsIgnoresBuffer(w, AssembledFrom(stream, maxMessageSize).tail, w.buffer + data);
    FeedTells(w.(buffer := w.buffer + data), AssembledFrom(stream, maxMessageSize).tail);
  }

  // -- the answer to the handshake --------------------------------------------------------------------

  /** The HTTP answers that have reached the peer. */
  function AnswersIn(log: seq<Attempt>): seq<Answer> {
    if log == [] then []
    else (if log[0].sent && log[0].write.HttpAnswer? then [log[0].write.answer] else []) + AnswersIn(log[1..])
  }

  lemma {:induction false} AnswersConcat(a: seq<Attempt>, b: seq<Attempt>)
    ensures AnswersIn(a + b) == AnswersIn(a) + AnswersIn(b)
    decreases |a|
  {
    if a == [] {
      assert a + b == b;
    } else {
      assert (a + b)[1..] == a[1..] + b;
      AnswersConcat(a[1..], b);
    }
  }

  lemma OneAnswer(log: seq<Attempt>, a: Attempt)
    ensures AnswersIn(log + [a]) == AnswersIn(log) + if a.sent && a.write.HttpAnswer? then [a.write.answer] else []
  {
    AnswersConcat(log, [a]);
    assert [a][1..] == [];
    assert AnswersIn([]) == [];
  }

  lemma {:induction false} FramesAreNoAnswers(more: seq<Attempt>)
    requires forall i :: 0 <= i < |more| ==> more[i].write.FrameWrite?
    ensures AnswersIn(more) == []
    decreases |more|
  {
    if more != [] { FramesAreNoAnswers(more[1..]); }
  }

  lemma ExtendingAnswersNothing(w: Ws, v: Ws)
    requires WsHandshake.Extends(w, v)
    ensures AnswersIn(v.wire.log) == AnswersIn(w.wire.log)
  {
    var n := |w.wire.log|;
    assert v.wire.log == v.wire.log[..n] + v.wire.log[n..];
    AnswersConcat(v.wire.log[..n], v.wire.log[n..]);
    FramesAreNoAnswers(v.wire.log[n..]);
  }

  /** What a step answers the handshake with, on an open connection. */
  function AnswerSaid(w: Ws, a: Action): seq<Answer> {
    if w.handshakeSent || !w.wire.open then []
    else
      match a
      case AskAccept => [w.answer]
      case AskClose(_, _) => [Forbidden]
      case End(raised) => if raised && !w.closed then [] else [Forbidden]
      case _ => []
  }

  ghost function AnswersSaid(w: Ws, actions: seq<Action>): seq<Answer>
    decreases |actions|
  {
    if actions == [] || !Enabled(w, actions[0]) then [] else AnswerSaid(w, actions[0]) + AnswersSaid(Act(w, actions[0]), actions[1..])
  }

  lemma ActAnswersAs(w: Ws, a: Action)
    requires Enabled(w, a)
    ensures AnswersIn(Act(w, a).wire.log) == AnswersIn(w.wire.log) + AnswerSaid(w, a)
  {
    hide FeedLoop, Fail, AnswersIn, ClosePayload, Finish, WsHandshake.Extends;
    forall write, sent ensures AnswersIn(w.wire.log + [Attempt(write, sent)]) == AnswersIn(w.wire.log) + if sent && write.HttpAnswer? then [write.answer] else [] {
      OneAnswer(w.wire.log, Attempt(write, sent));
    }
    match a
    case Feed(data) =>
      var fed := w.(buffer := w.buffer + data);
      WsHandshake.FeedLoopSpeaks(fed);
      WsHandshake.SpeaksExtends(fed);
      ExtendingAnswersNothing(fed, FeedLoop(fed));
    case End(raised) => EndAnswersAs(w, raised);
    case _ =>
  }

  lemma EndAnswersAs(w: Ws, raised: bool)
    ensures AnswersIn(Finish(w, raised).wire.log) == AnswersIn(w.wire.log) + AnswerSaid(w, End(raised))
  {
    hide Fail, AnswersIn, WsHandshake.Extends;
    var v := if raised && !w.closed then Fail(w, CLOSE_INTERNAL_ERROR, Ascii("internal error")) else w;
    WsHandshake.FailExtends(w, CLOSE_INTERNAL_ERROR, Ascii("internal error"));
    ExtendingAnswersNothing(w, Fail(w, CLOSE_INTERNAL_ERROR, Ascii("internal error")));
    FailKeepsHandshake(w);
    OneAnswer(v.wire.log, Attempt(HttpAnswer(Forbidden), v.wire.open));
  }

  lemma FailKeepsHandshake(w: Ws)
    ensures Fail(w, CLOSE_INTERNAL_ERROR, Ascii("internal error")).handshakeSent == w.handshakeSent
  {
    hide ClosePayload;
  }

  lemma {:induction false} RunAnswersAs(start: Ws, actions: seq<Action>, w: Ws)
    requires Reachable(start, actions, w)
    ensures AnswersIn(w.wire.log) == AnswersIn(start.wire.log) + AnswersSaid(start, actions)
    decreases |actions|
  {
    hide Act, Enabled, AnswersIn, AnswerSaid;
    if actions == [] {
      assert AnswersIn(start.wire.log) + [] == AnswersIn(start.wire.log);
    } else {
      ActAnswersAs(start, actions[0]);
      RunAnswersAs(Act(start, actions[0]), actions[1..], w);
    }
  }

  /** In every run: the HTTP answers that reach the peer are the one that the handshake
      calls for, if the application accepts, and 403 if it closes or ends instead. */
  lemma AnswersAreAsSaid(maxMessageSize: nat, answer: Answer, actions: seq<Action>, w: Ws)
    requires Reachable(Fresh(maxMessageSize, answer), actions, w)
    ensures AnswersIn(w.wire.log) == AnswersSaid(Fresh(maxMessageSize, answer), actions)
  {
    RunAnswersAs(Fresh(maxMessageSize, answer), actions, w);
    assert [] + AnswersSaid(Fresh(maxMessageSize, answer), actions) == AnswersSaid(Fresh(maxMessageSize, answer), actions);
  }

  // -- what a close and a receive do ---------------------------------------------------------------

  /** A close of the application shuts the connection, unless the cycle is closed already or
      the code does not fit, which raises. */
  lemma ApplicationCloseShutsIff(w: Ws, code: int, reason: bytes)
    ensures var v := AppClose(w, code, reason);
            && v.closed && (v.wire.open <==> w.wire.open && w.handshakeSent && (w.closed || !(0 <= code < 0x1_0000)))
            && v.incoming == w.incoming && v.disconnected == w.disconnected
  {
    hide ToBytes;
  }

  /** Some call of `receive` has been made. */
  predicate HasAsked(actions: seq<Action>) { exists i :: 0 <= i < |actions| && actions[i].AskReceive? }

  lemma ActConnects(w: Ws, a: Action)
    requires Enabled(w, a)
    ensures Act(w, a).connectSent <==> w.connectSent || a.AskReceive?
  {
    hide FeedLoop, ClosePayload;
    if a.Feed? { FeedConnectsNothing(w.(buffer := w.buffer + a.data)); }
  }

  lemma {:induction false} FeedConnectsNothing(w: Ws)
    ensures FeedLoop(w).connectSent == w.connectSent
    decreases |w.buffer|
  {
    FrameShortens(w.buffer, w.maxMessageSize);
    hide NextFrame, HandleFrame, ClosePayload;
    match NextFrame(w.buffer, w.maxMessageSize)
    case NoFrame =>
    case BadFrame(e) => FailConnectsNothing(w, e.Code(), e.Reason());
    case GotFrame(f, rest) =>
      var r := HandleFrame(w.(buffer := rest), f);
      assert SameRest(w.(buffer := rest), r.next);
      hide Fail;
      if r.Violated? { FailConnectsNothing(r.next, r.error.Code(), r.error.Reason()); }
      else if !r.next.closed { FeedConnectsNothing(PauseIfBehind(r.next)); }
  }

  lemma FailConnectsNothing(w: Ws, code: nat, reason: bytes)
    ensures Fail(w, code, reason).connectSent == w.connectSent
  {
    hide ClosePayload;
  }

  lemma {:induction false} RunConnects(start: Ws, actions: seq<Action>, w: Ws)
    requires Reachable(start, actions, w)
    ensures w.connectSent <==> start.connectSent || HasAsked(actions)
    decreases |actions|
  {
    hide Act, Enabled;
    if actions != [] {
      ActConnects(start, actions[0]);
      RunConnects(Act(start, actions[0]), actions[1..], w);
      AskedCons(actions);
    }
  }

  lemma AskedCons(actions: seq<Action>)
    requires actions != []
    ensures HasAsked(actions) <==> actions[0].AskReceive? || HasAsked(actions[1..])
  {
    if HasAsked(actions[1..]) {
      var i :| 0 <= i < |actions| - 1 && actions[1..][i].AskReceive?;
      assert actions[i + 1].AskReceive?;
    }
    if HasAsked(actions) {
      var i :| 0 <= i < |actions| && actions[i].AskReceive?;
      if i > 0 { assert actions[1..][i - 1].AskReceive?; }
    }
  }

  /** In every run: the first `receive` never waits, because it tells of the connection; a
      later one waits exactly while every message that has come has been handed over. */
  lemma ReceiveWaitsIff(maxMessageSize: nat, answer: Answer, actions: seq<Action>, w: Ws)
    requires Reachable(Fresh(maxMessageSize, answer), actions, w)
    ensures ReceiveWaits(w) <==> HasAsked(actions) && w.incoming == []
  {
    RunConnects(Fresh(maxMessageSize, answer), actions, w);
    hide Reachable, HasAsked;
  }
}
