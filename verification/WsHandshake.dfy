/** What the peer of an upgraded connection gets to see of the handshake: exactly when an
    HTTP answer reaches it, and exactly when a frame gets there first. */
module WsHandshake {
  import opened Bytes
  import opened WsFrames
  import opened WsSpec
  import opened WsSafety
  import opened WsReassembly
  import opened WsRuns

  predicate IsSentFrame(a: Attempt) { a.sent && a.write.FrameWrite? }

  predicate IsSentAnswer(a: Attempt) { a.sent && a.write.HttpAnswer? }

  /** How many HTTP answers have reached the peer. */
  function SentAnswers(log: seq<Attempt>): nat {
    if log == [] then 0 else SentAnswers(log[..|log| - 1]) + if IsSentAnswer(log[|log| - 1]) then 1 else 0
  }

  predicate SentBefore(log: seq<Attempt>, i: int) { exists j :: 0 <= j < i && j < |log| && IsSentAnswer(log[j]) }

  /** A frame reaches the peer before any HTTP answer has. */
  predicate FrameComesFirst(log: seq<Attempt>) {
    exists i :: 0 <= i < |log| && IsSentFrame(log[i]) && !SentBefore(log, i)
  }

  // -- the step that answers the handshake -----------------------------------------------

  predicate Answers(w: Ws, a: Action) { !w.handshakeSent && (a.AskAccept? || a.AskClose? || a.End?) }

  /** The handshake is answered while the connection is open, and not by an application
      that raised. */
  ghost predicate AnswersInTime(w: Ws, actions: seq<Action>)
    decreases |actions|
  {
    && actions != [] && Enabled(w, actions[0])
    && if Answers(w, actions[0]) then w.wire.open && actions[0] != End(true)
       else AnswersInTime(Act(w, actions[0]), actions[1..])
  }

  // -- logs that grow ----------------------------------------------------------------------

  /** More frames in the log; on a closed connection none of them is sent. */
  predicate Extends(w: Ws, v: Ws) {
    var a, b := w.wire.log, v.wire.log;
    && |a| <= |b| && b[..|a|] == a
    && (forall i :: |a| <= i < |b| ==> b[i].write.FrameWrite? && (b[i].sent ==> w.wire.open))
    && (v.wire.open ==> w.wire.open)
    && v.handshakeSent == w.handshakeSent && v.finished == w.finished && (w.closed ==> v.closed)
  }

  lemma ExtendsFurther(w: Ws, v: Ws, u: Ws)
    requires Extends(w, v) && Extends(v, u)
    ensures Extends(w, u)
  {
    var a, b, c := w.wire.log, v.wire.log, u.wire.log;
    assert c[..|a|] == b[..|a|];
    assert forall i :: |a| <= i < |b| ==> c[i] == b[i];
  }

  lemma {:induction false} SameAnswers(a: seq<Attempt>, b: seq<Attempt>)
    requires |a| <= |b| && b[..|a|] == a && forall i :: |a| <= i < |b| ==> !IsSentAnswer(b[i])
    ensures SentAnswers(b) == SentAnswers(a)
    decreases |b|
  {
    if |a| < |b| {
      assert b[..|b| - 1][..|a|] == a;
      SameAnswers(a, b[..|b| - 1]);
    } else {
      assert a == b;
    }
  }

  lemma OneMoreWrite(log: seq<Attempt>, a: Attempt)
    ensures SentAnswers(log + [a]) == SentAnswers(log) + if IsSentAnswer(a) then 1 else 0
  {
    assert (log + [a])[..|log|] == log;
  }

  lemma FailExtends(w: Ws, code: nat, reason: bytes)
    ensures var v := Fail(w, code, reason);
            Extends(w, v) && v.closed && !v.wire.open
            && (!w.closed && w.wire.open ==> |v.wire.log| > |w.wire.log| && IsSentFrame(v.wire.log[|w.wire.log|]))
  {
    hide ClosePayload;
  }

  /** The answer that a ping gets. */
  function PongFor(f: Frame): seq<Attempt> {
    if f.opcode == OP_PING then [Attempt(FrameWrite(OP_PONG, f.payload), true)] else []
  }

  function Pongs(frames: seq<Frame>): seq<Attempt> {
    if frames == [] then [] else PongFor(frames[0]) + Pongs(frames[1..])
  }

  predicate NoPing(frames: seq<Frame>) { forall i :: 0 <= i < |frames| ==> frames[i].opcode != OP_PING }

  lemma {:induction false} NoPingNoPong(frames: seq<Frame>)
    ensures Pongs(frames) == [] <==> NoPing(frames)
    ensures forall i :: 0 <= i < |Pongs(frames)| ==> IsSentFrame(Pongs(frames)[i])
    decreases |frames|
  {
    if frames != [] {
      NoPingNoPong(frames[1..]);
      if NoPing(frames[1..]) && frames[0].opcode != OP_PING {
        assert forall i :: 1 <= i < |frames| ==> frames[i] == frames[1..][i - 1];
      }
      if !NoPing(frames[1..]) {
        var k :| 0 <= k < |frames[1..]| && frames[1..][k].opcode == OP_PING;
        assert frames[k + 1].opcode == OP_PING;
      }
    }
  }

  /** One frame: its pong, its close, or nothing is written. */
  predicate Speaks(w: Ws, f: Frame, r: Handled) {
    && Extends(w, r.next)
    && (w.wire.open && !w.closed && r.Fine? && r.next.closed ==> SentAFrame(w, r.next))
    && (w.wire.open && !r.next.closed ==> r.next.wire.open)
    && (w.wire.open && r.Fine? && !r.next.closed ==> r.next.wire.log == w.wire.log + Pongs([f]))
    && (r.Violated? ==> r.next.wire == w.wire && r.next.closed == w.closed)
  }

  /** The connection was closed, and a frame was the next thing sent on it. */
  predicate SentAFrame(w: Ws, v: Ws) {
    !v.wire.open && |v.wire.log| > |w.wire.log| && IsSentFrame(v.wire.log[|w.wire.log|])
  }

  lemma EchoSpeaks(w: Ws, code: int, reason: bytes)
    ensures var v := EchoClose(w, code, reason);
            Extends(w, v) && v.closed && (w.wire.open && !w.closed ==> SentAFrame(w, v))
  {
    hide ClosePayload;
  }

  lemma OnlyPongs(f: Frame)
    ensures Pongs([f]) == PongFor(f)
  {
    assert [f][1..] == [];
    assert Pongs([]) == [];
  }

  lemma ControlSpeaks(w: Ws, f: Frame)
    ensures Speaks(w, f, HandleControl(w, f))
  {
    hide ParseClose, EchoClose, Pongs;
    OnlyPongs(f);
    assert w.wire.log + [] == w.wire.log;
    if f.opcode != OP_PING && f.opcode != OP_PONG && ParseClose(f.payload).GoodClose? {
      var p := ParseClose(f.payload);
      EchoSpeaks(w, p.code, p.reason);
    }
  }

  lemma DataSpeaks(w: Ws, f: Frame)
    requires !f.IsControl()
    ensures Speaks(w, f, HandleData(w, f))
  {
    hide HandleData, Pongs;
    DataOnlyQueues(w, f);
    OnlyPongs(f);
    assert w.wire.log + [] == w.wire.log;
  }

  lemma HandleSpeaks(w: Ws, f: Frame)
    ensures Speaks(w, f, HandleFrame(w, f))
  {
    hide Speaks, HandleControl, HandleData;
    if f.IsControl() { ControlSpeaks(w, f); } else { DataSpeaks(w, f); }
  }

  // -- reading ------------------------------------------------------------------------------

  /** What reading writes: a pong for every ping while the connection stays open, and
      a frame where it does not. */
  predicate FeedSpeaks(w: Ws, frames: seq<Frame>, v: Ws) {
    && Extends(w, v)
    && (w.wire.open && !w.closed ==>
          if v.closed then SentAFrame(w, v)
          else v.wire.open && v.wire.log == w.wire.log + Pongs(frames))
  }

  lemma SpeaksExtends(w: Ws)
    ensures FeedSpeaks(w, DrainFrames(w.buffer, w.maxMessageSize).frames, FeedLoop(w)) ==> Extends(w, FeedLoop(w))
  {
  }

  lemma PauseExtends(w: Ws)
    ensures var v := PauseIfBehind(w);
            Extends(w, v) && v.wire.log == w.wire.log && v.wire.open == w.wire.open && v.closed == w.closed
            && v.buffer == w.buffer && v.maxMessageSize == w.maxMessageSize
  {
  }

  lemma PongsOfMore(f: Frame, frames: seq<Frame>)
    ensures Pongs([f] + frames) == Pongs([f]) + Pongs(frames)
  {
    OnlyPongs(f);
    assert ([f] + frames)[1..] == frames;
  }

  lemma SaysNothing(w: Ws)
    ensures FeedSpeaks(w, [], w)
  {
    assert w.wire.log + [] == w.wire.log;
  }

  lemma FailSpeaks(w: Ws, v: Ws, code: nat, reason: bytes, frames: seq<Frame>)
    requires Extends(w, v) && v.wire.log == w.wire.log && v.wire.open == w.wire.open && v.closed == w.closed
    ensures FeedSpeaks(w, frames, Fail(v, code, reason))
  {
    hide Fail, Pongs;
    FailExtends(v, code, reason);
    ExtendsFurther(w, v, Fail(v, code, reason));
  }

  /** A frame that closed nothing, then the rest. */
  lemma GoesOnSpeaking(w: Ws, v: Ws, u: Ws, f: Frame, frames: seq<Frame>)
    requires Extends(w, v) && FeedSpeaks(v, frames, u) && !v.closed
    requires w.wire.open ==> v.wire.open && v.wire.log == w.wire.log + Pongs([f])
    ensures FeedSpeaks(w, [f] + frames, u)
  {
    ExtendsFurther(w, v, u);
    PongsOfMore(f, frames);
    hide Pongs, PongFor;
    if w.wire.open && !w.closed && u.closed { ClosesBehindPong(w, v, u, f); }
    assert w.wire.log + Pongs([f]) + Pongs(frames) == w.wire.log + (Pongs([f]) + Pongs(frames));
    hide Extends, SentAFrame;
  }

  lemma ClosesBehindPong(w: Ws, v: Ws, u: Ws, f: Frame)
    requires Extends(v, u) && SentAFrame(v, u) && v.wire.log == w.wire.log + Pongs([f])
    ensures SentAFrame(w, u)
  {
    PongsAreSent(f);
    hide Pongs, PongFor;
    var n := |w.wire.log|;
    if Pongs([f]) != [] { assert u.wire.log[n] == u.wire.log[..|v.wire.log|][n] == Pongs([f])[0]; }
  }

  lemma PongsAreSent(f: Frame)
    ensures Pongs([f]) != [] ==> IsSentFrame(Pongs([f])[0])
  {
    OnlyPongs(f);
  }

  lemma {:induction false} FeedLoopSpeaks(w: Ws)
    ensures FeedSpeaks(w, DrainFrames(w.buffer, w.maxMessageSize).frames, FeedLoop(w))
    decreases |w.buffer|
  {
    FrameShortens(w.buffer, w.maxMessageSize);
    DrainFramesStep(w.buffer, w.maxMessageSize);
    var frames := DrainFrames(w.buffer, w.maxMessageSize).frames;
    match NextFrame(w.buffer, w.maxMessageSize)
    case NoFrame =>
      hide NextFrame, FeedSpeaks;
      SaysNothing(w);
    case BadFrame(e) =>
      hide NextFrame, FeedSpeaks, Fail;
      WithBufferExtends(w, w.buffer);
      FailSpeaks(w, w, e.Code(), e.Reason(), frames);
    case GotFrame(f, rest) =>
      hide NextFrame, HandleFrame, Fail, Pongs, Extends, SentAFrame, PauseIfBehind;
      var v := w.(buffer := rest);
      var r := HandleFrame(v, f);
      HandleSpeaks(v, f);
      assert SameRest(v, r.next);
      FeedLoopStep(w, f, rest);
      WithBufferExtends(w, rest);
      ExtendsFurther(w, v, r.next);
      SentLike(w, v, r.next);
      if r.Violated? {
        FailSpeaks(w, r.next, r.error.Code(), r.error.Reason(), frames);
      } else if !r.next.closed {
        var p := PauseIfBehind(r.next);
        PauseExtends(r.next);
        ExtendsFurther(w, r.next, p);
        FeedLoopSpeaks(p);
        GoesOnSpeaking(w, p, FeedLoop(p), f, DrainFrames(rest, w.maxMessageSize).frames);
      }
  }

  lemma WithBufferExtends(w: Ws, buffer: bytes)
    ensures Extends(w, w.(buffer := buffer))
  {
  }

  lemma SentLike(w: Ws, v: Ws, u: Ws)
    requires v == w.(buffer := v.buffer)
    ensures SentAFrame(v, u) <==> SentAFrame(w, u)
  {
  }

  // -- the answer that reaches the peer ---------------------------------------------------

  /** Before the handshake step no answer was sent, and a closed cycle is cut off; its
      connection may be cut off while it does not know. */
  predicate Ready(w: Ws) {
    !w.handshakeSent && !w.finished ==> SentAnswers(w.wire.log) == 0 && (w.closed ==> !w.wire.open) && !w.accepted
  }

  lemma ExtendingSendsNoAnswer(w: Ws, v: Ws)
    requires Extends(w, v)
    ensures SentAnswers(v.wire.log) == SentAnswers(w.wire.log)
  {
    SameAnswers(w.wire.log, v.wire.log);
  }

  function AnswersNow(w: Ws, a: Action): nat { if Answers(w, a) && w.wire.open && a != End(true) then 1 else 0 }

  predicate Decided(w: Ws) { w.handshakeSent || w.finished }

  lemma FinishAnswers(w: Ws, raised: bool)
    requires Ready(w) && !w.finished
    ensures var v := Finish(w, raised);
            v.finished && SentAnswers(v.wire.log) == SentAnswers(w.wire.log) + AnswersNow(w, End(raised))
  {
    hide Fail, SentAnswers;
    var u := if raised && !w.closed then Fail(w, CLOSE_INTERNAL_ERROR, Ascii("internal error")) else w;
    FailExtends(w, CLOSE_INTERNAL_ERROR, Ascii("internal error"));
    WithBufferExtends(w, w.buffer);
    ExtendingSendsNoAnswer(w, u);
    OneMoreWrite(u.wire.log, Attempt(HttpAnswer(Forbidden), u.wire.open));
  }

  lemma ActAnswers(w: Ws, a: Action)
    requires Ready(w) && (w.disconnected ==> w.closed) && Enabled(w, a)
    ensures var v := Act(w, a);
            && Ready(v) && SentAnswers(v.wire.log) == SentAnswers(w.wire.log) + AnswersNow(w, a)
            && (Decided(v) <==> Decided(w) || Answers(w, a))
  {
    hide FeedLoop, Fail, SentAnswers, ClosePayload, Finish;
    match a
    case Feed(data) =>
      var fed := w.(buffer := w.buffer + data);
      FeedLoopSpeaks(fed);
      FeedKeepsAccepted(fed);
      ExtendingSendsNoAnswer(fed, FeedLoop(fed));
    case End(raised) => FinishAnswers(w, raised); FinishFinishes(w, raised);
    case AskAccept => OneMoreWrite(w.wire.log, Attempt(HttpAnswer(w.answer), w.wire.open));
    case AskClose(code, reason) =>
      OneMoreWrite(w.wire.log, Attempt(HttpAnswer(Forbidden), w.wire.open));
      if ClosePayload(code, reason).Some? {
        OneMoreWrite(w.wire.log, Attempt(FrameWrite(OP_CLOSE, ClosePayload(code, reason).value), w.wire.open));
      }
    case SendText(text) => OneMoreWrite(w.wire.log, Attempt(FrameWrite(OP_TEXT, text), w.wire.open));
    case SendBinary(data) => OneMoreWrite(w.wire.log, Attempt(FrameWrite(OP_BINARY, data), w.wire.open));
    case _ =>
  }

  lemma FinishFinishes(w: Ws, raised: bool)
    ensures Finish(w, raised).finished
  {
  }

  lemma {:induction false} FeedKeepsAccepted(w: Ws)
    ensures FeedLoop(w).accepted == w.accepted
    decreases |w.buffer|
  {
    FrameShortens(w.buffer, w.maxMessageSize);
    hide NextFrame, HandleFrame, ClosePayload;
    match NextFrame(w.buffer, w.maxMessageSize)
    case GotFrame(f, rest) =>
      var r := HandleFrame(w.(buffer := rest), f);
      assert SameRest(w.(buffer := rest), r.next);
      FeedLoopStep(w, f, rest);
      hide Fail;
      if r.Violated? { FailKeepsFlags(r.next, r.error.Code(), r.error.Reason()); }
      else if !r.next.closed { FeedKeepsAccepted(PauseIfBehind(r.next)); }
    case BadFrame(e) => FailKeepsFlags(w, e.Code(), e.Reason());
    case _ =>
  }

  lemma {:induction false} RunAnswers(start: Ws, actions: seq<Action>, w: Ws)
    requires Ready(start) && Safe(start) && Reachable(start, actions, w)
    ensures SentAnswers(w.wire.log) ==
            if Decided(start) then SentAnswers(start.wire.log) else if AnswersInTime(start, actions) then 1 else 0
    decreases |actions|
  {
    if actions != [] {
      ActAnswers(start, actions[0]);
      ActKeepsSafe(start, actions[0]);
      hide Act, Enabled, SentAnswers, Safe;
      RunAnswers(Act(start, actions[0]), actions[1..], w);
    }
  }

  /** In every run at most one HTTP answer reaches the peer, and one does if and only if
      the handshake is answered while the connection is open: before a violation or a
      close of the peer, before the server or the peer shuts the connection or loses it,
      and not by an application that raised. */
  lemma AnswerIsSentIff(maxMessageSize: nat, answer: Answer, actions: seq<Action>, w: Ws)
    requires Reachable(Fresh(maxMessageSize, answer), actions, w)
    ensures SentAnswers(w.wire.log) == if AnswersInTime(Fresh(maxMessageSize, answer), actions) then 1 else 0
  {
    assert Safe(Fresh(maxMessageSize, answer));
    RunAnswers(Fresh(maxMessageSize, answer), actions, w);
  }

  /** The connection is shut, by a half-close of the peer for one, before the application
      accepts: the cycle takes itself for accepted and open, and the peer gets nothing. */
  lemma AcceptedTooLateRun(maxMessageSize: nat, answer: Answer) returns (w: Ws)
    ensures Reachable(Fresh(maxMessageSize, answer), [Shut, AskAccept], w)
    ensures w.accepted && w.handshakeSent && !w.closed && w.wire.log == [Attempt(HttpAnswer(answer), false)]
    ensures SentAnswers(w.wire.log) == 0
  {
    var start := Fresh(maxMessageSize, answer);
    var shut := Act(start, Shut);
    w := Act(shut, AskAccept);
    assert [Shut, AskAccept][1..] == [AskAccept] && [AskAccept][1..] == [];
    assert Reachable(w, [], w);
    assert Reachable(shut, [AskAccept], w);
    AnswerIsSentIff(maxMessageSize, answer, [Shut, AskAccept], w);
  }

  /** An application that raises before it accepts: the peer gets a close frame, and no
      HTTP answer at all. */
  lemma UnansweredRun(maxMessageSize: nat, answer: Answer) returns (w: Ws)
    ensures Reachable(Fresh(maxMessageSize, answer), [End(true)], w) && w.finished
    ensures |w.wire.log| == 2 && w.wire.log[0].sent && IsClose(w.wire.log[0]) && w.wire.log[1] == Attempt(HttpAnswer(Forbidden), false)
    ensures SentAnswers(w.wire.log) == 0
  {
    var start := Fresh(maxMessageSize, answer);
    w := Act(start, End(true));
    assert [End(true)][1..] == [];
    assert Reachable(w, [], w);
    AnswerIsSentIff(maxMessageSize, answer, [End(true)], w);
  }

  // -- a frame before the answer -------------------------------------------------------------

  /** The steps behind which no frame can come first any more. */
  predicate Stops(w: Ws, a: Action) { Answers(w, a) || a.Shut? || a.Lose? }

  /** The bytes fed until the handshake is answered or the connection closed. */
  ghost function Early(w: Ws, actions: seq<Action>): bytes
    decreases |actions|
  {
    if actions == [] || !w.wire.open || !Enabled(w, actions[0]) || Stops(w, actions[0]) then []
    else (if actions[0].Feed? then actions[0].data else []) + Early(Act(w, actions[0]), actions[1..])
  }

  /** The application raises before anything else stops the handshake. */
  ghost predicate RaisesFirst(w: Ws, actions: seq<Action>)
    decreases |actions|
  {
    && actions != [] && w.wire.open && Enabled(w, actions[0])
    && if Stops(w, actions[0]) then actions[0] == End(true) else RaisesFirst(Act(w, actions[0]), actions[1..])
  }

  /** Legal frames without a close and without a ping. */
  predicate Silent(stream: bytes, maxSize: nat) {
    Legible(stream, maxSize) && NoPing(DrainFrames(stream, maxSize).frames)
  }

  /** Nothing that is still to come can put a frame in front. */
  predicate Settled(w: Ws) { !w.wire.open || exists j :: 0 <= j < |w.wire.log| && IsSentAnswer(w.wire.log[j]) }

  /** More writes; on a closed connection none of them is sent. */
  predicate Grows(w: Ws, v: Ws) {
    var a, b := w.wire.log, v.wire.log;
    && |a| <= |b| && b[..|a|] == a && (v.wire.open ==> w.wire.open)
    && forall i :: |a| <= i < |b| ==> b[i].sent ==> w.wire.open
  }

  lemma GrowthIsSettled(w: Ws, v: Ws)
    requires Settled(w) && Grows(w, v)
    ensures Settled(v) && (FrameComesFirst(v.wire.log) <==> FrameComesFirst(w.wire.log))
  {
    var a, b := w.wire.log, v.wire.log;
    assert forall j :: 0 <= j < |a| ==> b[j] == a[j];
    if FrameComesFirst(a) {
      var i :| 0 <= i < |a| && IsSentFrame(a[i]) && !SentBefore(a, i);
      assert IsSentFrame(b[i]) && !SentBefore(b, i);
    }
    if w.wire.open {
      var j :| 0 <= j < |a| && IsSentAnswer(a[j]);
      assert IsSentAnswer(b[j]);
      assert forall i :: |a| <= i ==> SentBefore(b, i);
    }
    if FrameComesFirst(b) {
      var i :| 0 <= i < |b| && IsSentFrame(b[i]) && !SentBefore(b, i);
      assert i < |a|;
      assert IsSentFrame(a[i]) && !SentBefore(a, i);
    }
  }

  lemma GrowsFurther(w: Ws, v: Ws, u: Ws)
    requires Grows(w, v) && Grows(v, u)
    ensures Grows(w, u)
  {
    var a, b, c := w.wire.log, v.wire.log, u.wire.log;
    assert c[..|a|] == b[..|a|];
    assert forall i :: |a| <= i < |b| ==> c[i] == b[i];
  }

  lemma FinishGrows(w: Ws, raised: bool)
    ensures Grows(w, Finish(w, raised))
  {
    var u := if raised && !w.closed then Fail(w, CLOSE_INTERNAL_ERROR, Ascii("internal error")) else w;
    FailExtends(w, CLOSE_INTERNAL_ERROR, Ascii("internal error"));
    hide Fail;
    GrowsFurther(w, u, Finish(w, raised));
  }

  lemma ActGrows(w: Ws, a: Action)
    requires Enabled(w, a)
    ensures Grows(w, Act(w, a))
  {
    hide FeedLoop, ClosePayload, Finish;
    match a
    case Feed(data) => FeedLoopSpeaks(w.(buffer := w.buffer + data));
    case End(raised) => FinishGrows(w, raised);
    case _ =>
  }

  lemma {:induction false} RunStaysSettled(start: Ws, actions: seq<Action>, w: Ws)
    requires Settled(start) && Reachable(start, actions, w)
    ensures FrameComesFirst(w.wire.log) <==> FrameComesFirst(start.wire.log)
    decreases |actions|
  {
    hide Act, Enabled, Grows, FrameComesFirst, Settled;
    if actions != [] {
      ActGrows(start, actions[0]);
      GrowthIsSettled(start, Act(start, actions[0]));
      RunStaysSettled(Act(start, actions[0]), actions[1..], w);
    }
  }

  /** The handshake is still to be answered, and `stream` is what was fed. */
  predicate Undecided(w: Ws, stream: bytes) {
    && !w.closed && w.wire.open && !w.handshakeSent && !w.finished && !w.accepted && Exact(w, stream)
    && w.wire.log == Pongs(DrainFrames(stream, w.maxMessageSize).frames)
  }

  lemma {:induction false} PongsConcat(a: seq<Frame>, b: seq<Frame>)
    ensures Pongs(a + b) == Pongs(a) + Pongs(b)
    decreases |a|
  {
    hide PongFor;
    if a == [] {
      assert a + b == b;
    } else {
      assert (a + b)[1..] == a[1..] + b;
      PongsConcat(a[1..], b);
    }
  }

  lemma PongsComeFirst(frames: seq<Frame>)
    ensures FrameComesFirst(Pongs(frames)) <==> !NoPing(frames)
    ensures forall j :: 0 <= j < |Pongs(frames)| ==> !IsSentAnswer(Pongs(frames)[j])
  {
    NoPingNoPong(frames);
    var log := Pongs(frames);
    if log != [] { assert IsSentFrame(log[0]) && !SentBefore(log, 0); }
  }

  /** One more write behind frames only. */
  lemma NextComesFirst(log: seq<Attempt>, a: Attempt)
    requires forall j :: 0 <= j < |log| ==> !IsSentAnswer(log[j])
    ensures FrameComesFirst(log + [a]) <==> FrameComesFirst(log) || IsSentFrame(a)
  {
    var all := log + [a];
    assert forall j :: 0 <= j < |log| ==> all[j] == log[j];
    if FrameComesFirst(log) {
      var i :| 0 <= i < |log| && IsSentFrame(log[i]) && !SentBefore(log, i);
      assert IsSentFrame(all[i]) && !SentBefore(all, i);
    }
    if IsSentFrame(a) {
      assert IsSentFrame(all[|log|]) && !SentBefore(all, |log|);
    }
    if FrameComesFirst(all) && !IsSentFrame(a) {
      var i :| 0 <= i < |all| && IsSentFrame(all[i]) && !SentBefore(all, i);
      assert IsSentFrame(log[i]) && !SentBefore(log, i);
    }
  }

  lemma FedWhileUndecided(w: Ws, stream: bytes, x: bytes)
    requires Undecided(w, stream)
    ensures var v := FeedData(w, x);
            if v.closed then !Legible(stream + x, w.maxMessageSize) && !v.wire.open && FrameComesFirst(v.wire.log)
            else Undecided(v, stream + x) && v.maxMessageSize == w.maxMessageSize
  {
    var max, fed := w.maxMessageSize, w.(buffer := w.buffer + x);
    FedExactly(w, stream, x);
    FeedLoopSpeaks(fed);
    FeedKeepsAccepted(fed);
    DrainFramesTwoGoes(stream, x, max);
    var first := DrainFrames(stream, max);
    var second := DrainFrames(first.rest + x, max);
    PongsConcat(first.frames, second.frames);
    PongsComeFirst(first.frames);
    hide FeedLoop, DrainFrames, Exact, Pongs, Legible;
    assert fed.buffer == first.rest + x by { ExactBuffer(w, stream); }
    var v := FeedLoop(fed);
    if v.closed {
      var n := |w.wire.log|;
      assert IsSentFrame(v.wire.log[n]);
      assert forall j :: 0 <= j < n ==> v.wire.log[j] == w.wire.log[j];
      assert !SentBefore(v.wire.log, n);
    } else {
      assert first.error.None? by { ExactBuffer(w, stream); }
    }
  }

  lemma ExactBuffer(w: Ws, stream: bytes)
    requires Exact(w, stream) && !w.closed
    ensures w.buffer == DrainFrames(stream, w.maxMessageSize).rest && DrainFrames(stream, w.maxMessageSize).error.None?
  {
  }

  /** The step that stops the handshake, or one that changes nothing about it. */
  lemma ActsWhileUndecided(w: Ws, stream: bytes, a: Action)
    requires Undecided(w, stream) && Enabled(w, a) && !a.Feed?
    ensures var v := Act(w, a);
            if Stops(w, a) then
              Settled(v) && (FrameComesFirst(v.wire.log) <==> !Silent(stream, w.maxMessageSize) || a == End(true))
            else Undecided(v, stream) && v.maxMessageSize == w.maxMessageSize
  {
    hide DrainFrames, Pongs, Legible, FeedLoop, AssembledFrom, Payload;
    PongsComeFirst(DrainFrames(stream, w.maxMessageSize).frames);
    NextComesFirst(w.wire.log, Attempt(HttpAnswer(w.answer), true));
    NextComesFirst(w.wire.log, Attempt(HttpAnswer(Forbidden), true));
    match a
    case End(raised) => EndsWhileUndecided(w, raised); hide FrameComesFirst, Finish, Exact;
    case AskReceive => ReceivesExactly(w, stream); hide FrameComesFirst, Exact;
    case AskAccept => AnswerSettles(w, Accept(w)); hide FrameComesFirst, Exact;
    case AskClose(code, reason) => AnswerSettles(w, AppClose(w, code, reason)); hide FrameComesFirst, Exact;
    case _ => hide FrameComesFirst, Exact;
  }

  lemma AnswerSettles(w: Ws, v: Ws)
    requires |v.wire.log| == |w.wire.log| + 1 && IsSentAnswer(v.wire.log[|w.wire.log|])
    ensures Settled(v)
  {
  }

  lemma EndsWhileUndecided(w: Ws, raised: bool)
    requires !w.closed && w.wire.open && !w.handshakeSent && forall j :: 0 <= j < |w.wire.log| ==> !IsSentAnswer(w.wire.log[j])
    ensures var v := Finish(w, raised);
            Settled(v) && (FrameComesFirst(v.wire.log) <==> FrameComesFirst(w.wire.log) || raised)
  {
    hide FrameComesFirst, ClosePayload;
    var log := w.wire.log;
    NextComesFirst(log, Attempt(HttpAnswer(Forbidden), true));
    if raised {
      var payload := ClosePayload(CLOSE_INTERNAL_ERROR, Ascii("internal error"));
      var first := Attempt(FrameWrite(OP_CLOSE, if payload.Some? then payload.value else []), true);
      NextComesFirst(log, first);
      NextComesFirst(log + [first], Attempt(HttpAnswer(Forbidden), false));
    }
  }

  lemma {:induction false} RunComesFirst(start: Ws, stream: bytes, actions: seq<Action>, w: Ws)
    requires Undecided(start, stream) && Reachable(start, actions, w)
    ensures FrameComesFirst(w.wire.log) <==>
            !Silent(stream + Early(start, actions), start.maxMessageSize) || RaisesFirst(start, actions)
    decreases |actions|
  {
    hide Act, Enabled, FrameComesFirst, Settled, Legible, DrainFrames, Pongs, NoPing, Exact;
    if actions == [] {
      assert stream + [] == stream;
      PongsComeFirst(DrainFrames(stream, start.maxMessageSize).frames);
      LegibleSoFar(start, stream);
    } else {
      var a := actions[0];
      var next := Act(start, a);
      if a.Feed? {
        FeedIsAct(start, a);
        FedWhileUndecided(start, stream, a.data);
        assert stream + (a.data + Early(next, actions[1..])) == stream + a.data + Early(next, actions[1..]);
        if next.closed {
          NotOpenIsSettled(next);
          RunStaysSettled(next, actions[1..], w);
          assert stream + a.data + [] == stream + a.data;
        } else {
          RunComesFirst(next, stream + a.data, actions[1..], w);
        }
      } else {
        ActsWhileUndecided(start, stream, a);
        assert stream + [] == stream;
        if Stops(start, a) {
          RunStaysSettled(next, actions[1..], w);
        } else {
          RunComesFirst(next, stream, actions[1..], w);
          assert [] + Early(next, actions[1..]) == Early(next, actions[1..]);
        }
      }
    }
  }

  lemma NotOpenIsSettled(w: Ws)
    requires !w.wire.open
    ensures Settled(w)
  {
  }

  lemma LegibleSoFar(w: Ws, stream: bytes)
    requires Exact(w, stream) && !w.closed
    ensures Legible(stream, w.maxMessageSize)
  {
  }

  lemma FeedIsAct(w: Ws, a: Action)
    requires a.Feed? && Enabled(w, a)
    ensures Act(w, a) == FeedData(w, a.data)
  {
  }

  /** In every run: a frame reaches the peer before any HTTP answer if and only if, before
      the handshake is answered or the connection shut or lost, the peer sent a ping, a
      close or anything illegal, or the application raised. */
  lemma FrameComesFirstIff(maxMessageSize: nat, answer: Answer, actions: seq<Action>, w: Ws)
    requires Reachable(Fresh(maxMessageSize, answer), actions, w)
    ensures var start := Fresh(maxMessageSize, answer);
            FrameComesFirst(w.wire.log) <==> !Silent(Early(start, actions), maxMessageSize) || RaisesFirst(start, actions)
  {
    var start := Fresh(maxMessageSize, answer);
    FreshIsExact(maxMessageSize, answer);
    EmptyIsNoFrame(maxMessageSize);
    hide NextFrame, FrameComesFirst, Silent, RaisesFirst;
    assert DrainFrames([], maxMessageSize) == Frames([], [], None);
    RunComesFirst(start, [], actions, w);
    assert [] + Early(start, actions) == Early(start, actions);
  }
}
