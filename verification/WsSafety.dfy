/** What holds in every state that any interleaving of a peer and an application
    reaches: one close frame, one attempt at an answer, and no reader left waiting. */
module WsSafety {
  import opened Bytes
  import opened WsFrames
  import opened WsSpec

  // -- what the log says ---------------------------------------------------------

  predicate IsClose(a: Attempt) { a.write.FrameWrite? && a.write.opcode == OP_CLOSE }

  predicate IsData(a: Attempt) { a.write.FrameWrite? && IsDataOpcode(a.write.opcode) }

  predicate IsHttp(a: Attempt) { a.write.HttpAnswer? }

  function Closes(log: seq<Attempt>): nat {
    if log == [] then 0 else Closes(log[..|log| - 1]) + if IsClose(log[|log| - 1]) then 1 else 0
  }

  function Https(log: seq<Attempt>): nat {
    if log == [] then 0 else Https(log[..|log| - 1]) + if IsHttp(log[|log| - 1]) then 1 else 0
  }

  predicate NoDataAfterClose(log: seq<Attempt>) {
    forall i, j :: 0 <= i < j < |log| && IsClose(log[i]) ==> !IsData(log[j])
  }

  /** Every data frame comes after an HTTP answer, and that answer is `answer`. */
  predicate DataAfterAnswer(log: seq<Attempt>, answer: Answer) {
    forall j :: 0 <= j < |log| && IsData(log[j]) ==>
      exists i :: 0 <= i < j && log[i].write == HttpAnswer(answer)
  }

  predicate ControlFits(log: seq<Attempt>) {
    forall i :: 0 <= i < |log| && log[i].write.FrameWrite? && IsControlOpcode(log[i].write.opcode) ==>
      |log[i].write.payload| <= MAX_CONTROL_PAYLOAD
  }

  /** No write reaches the peer once the connection has been closed. */
  predicate SentIsPrefix(log: seq<Attempt>) {
    forall i, j :: 0 <= i < j < |log| && log[j].sent ==> log[i].sent
  }

  predicate Safe(w: Ws) {
    var log := w.wire.log;
    && Closes(log) <= (if w.closed then 1 else 0)
    && Https(log) == (if w.handshakeSent || w.finished then 1 else 0)
    && NoDataAfterClose(log) && DataAfterAnswer(log, w.answer) && ControlFits(log) && SentIsPrefix(log)
    && (w.wire.open ==> forall i :: 0 <= i < |log| ==> log[i].sent)
    && (w.accepted ==> w.handshakeSent && exists i :: 0 <= i < |log| && log[i].write == HttpAnswer(w.answer))
    && (w.wire.readPaused && w.wire.open ==> |w.incoming| > RESUME_READING_AT)
    && (w.disconnected ==> w.closed)
  }

  // -- one more write --------------------------------------------------------------

  lemma CountsAppend(log: seq<Attempt>, a: Attempt)
    ensures Closes(log + [a]) == Closes(log) + if IsClose(a) then 1 else 0
    ensures Https(log + [a]) == Https(log) + if IsHttp(a) then 1 else 0
  {
    assert (log + [a])[..|log|] == log;
  }

  lemma {:induction false} NoClosesNoClose(log: seq<Attempt>, i: nat)
    requires Closes(log) == 0 && i < |log|
    ensures !IsClose(log[i])
  {
    if i < |log| - 1 {
      NoClosesNoClose(log[..|log| - 1], i);
    }
  }

  /** A write may follow if it is not data on a closed or unaccepted connection, not a
      second close, and not an oversized control frame. */
  predicate MayFollow(w: Ws, x: Write) {
    match x
    case HttpAnswer(_) => true
    case FrameWrite(opcode, payload) =>
      && (IsDataOpcode(opcode) ==> !w.closed && w.accepted)
      && (IsControlOpcode(opcode) ==> |payload| <= MAX_CONTROL_PAYLOAD)
  }

  lemma PutKeepsShape(w: Ws, x: Write)
    requires Safe(w) && MayFollow(w, x)
    ensures var log := Put(w.wire, x).log;
            && NoDataAfterClose(log) && DataAfterAnswer(log, w.answer) && ControlFits(log) && SentIsPrefix(log)
            && (w.wire.open ==> forall i :: 0 <= i < |log| ==> log[i].sent)
            && (w.accepted ==> exists i :: 0 <= i < |log| && log[i].write == HttpAnswer(w.answer))
            && (x == HttpAnswer(w.answer) ==> exists i :: 0 <= i < |log| && log[i].write == HttpAnswer(w.answer))
            && Closes(log) == Closes(w.wire.log) + (if x.FrameWrite? && x.opcode == OP_CLOSE then 1 else 0)
            && Https(log) == Https(w.wire.log) + (if x.HttpAnswer? then 1 else 0)
  {
    var before, a := w.wire.log, Attempt(x, w.wire.open);
    var log := Put(w.wire, x).log;
    assert forall i :: 0 <= i < |before| ==> log[i] == before[i];
    assert log[|before|] == a;
    CountsAppend(before, a);
    if !w.closed {
      forall i | 0 <= i < |before| ensures !IsClose(before[i]) {
        NoClosesNoClose(before, i);
      }
    }
    if w.accepted {
      var k :| 0 <= k < |before| && before[k].write == HttpAnswer(w.answer);
      assert log[k].write == HttpAnswer(w.answer);
    }
    forall j | 0 <= j < |log| && IsData(log[j])
      ensures exists i :: 0 <= i < j && log[i].write == HttpAnswer(w.answer)
    {
      if j < |before| {
        var i :| 0 <= i < j && before[i].write == HttpAnswer(w.answer);
        assert log[i].write == HttpAnswer(w.answer);
      }
    }
  }

  lemma ClosePayloadFits(code: int, reason: bytes)
    ensures ClosePayload(code, reason).Some? ==> |ClosePayload(code, reason).value| <= MAX_CONTROL_PAYLOAD
  {
  }

  // -- the peer's steps ---------------------------------------------------------

  lemma FrameIsChecked(buffer: bytes, maxSize: nat)
    ensures match NextFrame(buffer, maxSize)
            case GotFrame(f, _) => Checked(f, maxSize)
            case _ => true
  {
    hide Unmask, ReadLength;
    if |buffer| >= 2 && NextFrame(buffer, maxSize).GotFrame? {
      var r := ReadLength(buffer);
      UnmaskIsBytewise(buffer[r.offset + 4..r.offset + 4 + r.length], buffer[r.offset..r.offset + 4]);
    }
  }

  predicate Checked(f: Frame, maxSize: nat) {
    && (IsDataOpcode(f.opcode) || IsControlOpcode(f.opcode))
    && (f.IsControl() ==> f.fin && |f.payload| <= MAX_CONTROL_PAYLOAD)
    && (!f.IsControl() ==> |f.payload| <= maxSize)
  }

  lemma WroteClose(w: Ws, payload: bytes)
    requires Safe(w) && !w.closed && |payload| <= MAX_CONTROL_PAYLOAD
    ensures Safe(w.(closed := true, wire := Put(w.wire, FrameWrite(OP_CLOSE, payload))))
  {
    PutKeepsShape(w, FrameWrite(OP_CLOSE, payload));
    hide Closes, Https, NoDataAfterClose, DataAfterAnswer, ControlFits, SentIsPrefix;
  }

  lemma WroteAnswer(w: Ws, answer: Answer)
    requires Safe(w) && !w.handshakeSent && !w.finished
    ensures Safe(w.(handshakeSent := true, wire := Put(w.wire, HttpAnswer(answer))))
  {
    PutKeepsShape(w, HttpAnswer(answer));
    hide Closes, Https, NoDataAfterClose, DataAfterAnswer, ControlFits, SentIsPrefix;
  }

  lemma EndedKeepsSafe(w: Ws, code: int)
    requires Safe(w)
    ensures Safe(OnDisconnect(w, code)) && Safe(w.(wire := Close(w.wire)))
  {
    hide Closes, Https, NoDataAfterClose, DataAfterAnswer, ControlFits, SentIsPrefix;
  }

  lemma FailKeepsSafe(w: Ws, code: nat, reason: bytes)
    requires Safe(w)
    ensures Safe(Fail(w, code, reason)) && Fail(w, code, reason).closed
  {
    hide Safe, ClosePayload, Put;
    var p := ClosePayload(code, reason);
    var payload := if p.Some? then p.value else [];
    ClosePayloadFits(code, reason);
    if !w.closed { WroteClose(w, payload); }
    var v := if w.closed then w else w.(closed := true, wire := Put(w.wire, FrameWrite(OP_CLOSE, payload)));
    EndedKeepsSafe(v, code);
    EndedKeepsSafe(OnDisconnect(v, code), code);
  }

  lemma EchoKeepsSafe(w: Ws, code: int, reason: bytes)
    requires Safe(w)
    ensures Safe(EchoClose(w, code, reason))
  {
    hide ClosePayload, Put, Closes, Https, NoDataAfterClose, DataAfterAnswer, ControlFits, SentIsPrefix;
    var echoed := if code == CLOSE_NO_STATUS then CLOSE_NORMAL else code;
    ClosePayloadFits(echoed, reason);
    var p := ClosePayload(echoed, reason);
    var payload := if p.Some? then p.value else [];
    if !w.closed { WroteClose(w, payload); }
    var v := if w.closed then w else w.(closed := true, wire := Put(w.wire, FrameWrite(OP_CLOSE, payload)));
    EndedKeepsSafe(v, code);
  }

  /** A data frame writes nothing and closes nothing. */
  lemma DataOnlyQueues(w: Ws, f: Frame)
    ensures var v := HandleData(w, f).next;
            && v.wire == w.wire && v.closed == w.closed && v.disconnected == w.disconnected
            && |v.incoming| >= |w.incoming|
  {
    hide MessageFor, SameRest;
  }

  lemma HandleKeepsSafe(w: Ws, f: Frame)
    requires Safe(w) && Checked(f, w.maxMessageSize)
    ensures Safe(HandleFrame(w, f).next)
  {
    hide ParseClose, EchoClose, HandleData;
    DataOnlyQueues(w, f);
    if f.opcode == OP_PING {
      PutKeepsShape(w, FrameWrite(OP_PONG, f.payload));
    } else if f.opcode == OP_CLOSE {
      match ParseClose(f.payload)
      case GoodClose(code, reason) => EchoKeepsSafe(w, code, reason);
      case BadClose(_) =>
    }
    hide Closes, Https, NoDataAfterClose, DataAfterAnswer, ControlFits, SentIsPrefix, Put;
  }

  lemma {:induction false} FeedKeepsSafe(w: Ws)
    requires Safe(w)
    ensures Safe(FeedLoop(w))
    decreases |w.buffer|
  {
    FrameShortens(w.buffer, w.maxMessageSize);
    FrameIsChecked(w.buffer, w.maxMessageSize);
    hide NextFrame, HandleFrame, Fail, Closes, Https, NoDataAfterClose, DataAfterAnswer, ControlFits, SentIsPrefix;
    match NextFrame(w.buffer, w.maxMessageSize)
    case NoFrame =>
    case BadFrame(e) => FailKeepsSafe(w, e.Code(), e.Reason());
    case GotFrame(f, rest) =>
      var v := w.(buffer := rest);
      HandleKeepsSafe(v, f);
      match HandleFrame(v, f)
      case Violated(next, e) => FailKeepsSafe(next, e.Code(), e.Reason());
      case Fine(next) => if !next.closed { FeedKeepsSafe(PauseIfBehind(next)); }
  }

  // -- every step ------------------------------------------------------------------

  lemma AcceptKeepsSafe(w: Ws)
    requires Safe(w) && !w.finished
    ensures Safe(Accept(w))
  {
    if !w.handshakeSent {
      PutKeepsShape(w, HttpAnswer(w.answer));
    }
    hide Closes, Https, NoDataAfterClose, DataAfterAnswer, ControlFits, SentIsPrefix, Put;
  }

  lemma SendKeepsSafe(w: Ws, opcode: Opcode, payload: bytes)
    requires Safe(w) && (opcode == OP_TEXT || opcode == OP_BINARY)
    ensures Safe(Send(w, opcode, payload))
  {
    if w.accepted && !w.closed {
      PutKeepsShape(w, FrameWrite(opcode, payload));
    }
    hide Closes, Https, NoDataAfterClose, DataAfterAnswer, ControlFits, SentIsPrefix, Put;
  }

  lemma AppCloseKeepsSafe(w: Ws, code: int, reason: bytes)
    requires Safe(w) && !w.finished
    ensures Safe(AppClose(w, code, reason))
  {
    ClosePayloadFits(code, reason);
    hide ClosePayload;
    if !w.handshakeSent {
      PutKeepsShape(w, HttpAnswer(Forbidden));
    } else if !w.closed && ClosePayload(code, reason).Some? {
      PutKeepsShape(w, FrameWrite(OP_CLOSE, ClosePayload(code, reason).value));
    }
    hide Closes, Https, NoDataAfterClose, DataAfterAnswer, ControlFits, SentIsPrefix, Put;
  }

  lemma ReceiveKeepsSafe(w: Ws)
    requires Safe(w) && !ReceiveWaits(w)
    ensures Safe(Receive(w))
  {
    hide Closes, Https, NoDataAfterClose, DataAfterAnswer, ControlFits, SentIsPrefix, Put;
  }

  lemma LostKeepsSafe(w: Ws)
    requires Safe(w)
    ensures Safe(ConnectionLost(w))
  {
    hide Closes, Https, NoDataAfterClose, DataAfterAnswer, ControlFits, SentIsPrefix, Put;
  }

  lemma AppStepKeepsSafe(w: Ws, a: Action)
    requires Safe(w) && Enabled(w, a) && !a.Feed? && !a.End?
    ensures Safe(Act(w, a))
  {
    hide Safe, Accept, Send, AppClose, Receive, ConnectionLost;
    match a
    case AskAccept => AcceptKeepsSafe(w);
    case SendText(text) => SendKeepsSafe(w, OP_TEXT, text);
    case SendBinary(data) => SendKeepsSafe(w, OP_BINARY, data);
    case AskClose(code, reason) => AppCloseKeepsSafe(w, code, reason);
    case AskReceive => ReceiveKeepsSafe(w);
    case Shut => EndedKeepsSafe(w, 0);
    case Lose => LostKeepsSafe(w);
  }

  lemma FinishedKeepsSafe(w: Ws)
    requires Safe(w) && w.handshakeSent
    ensures Safe(w.(finished := true))
    ensures !w.accepted ==> Safe(w.(handshakeSent := false, finished := true))
  {
    hide Closes, Https, NoDataAfterClose, DataAfterAnswer, ControlFits, SentIsPrefix;
  }

  lemma FinishKeepsSafe(w: Ws, raised: bool)
    requires Safe(w) && !w.finished
    ensures Safe(Finish(w, raised))
  {
    hide Safe, Fail, Put;
    var v := w;
    if raised && !w.closed {
      FailKeepsSafe(w, CLOSE_INTERNAL_ERROR, Ascii("internal error"));
      v := Fail(w, CLOSE_INTERNAL_ERROR, Ascii("internal error"));
      FailKeepsFlags(w, CLOSE_INTERNAL_ERROR, Ascii("internal error"));
    }
    if v.handshakeSent {
      FinishedKeepsSafe(v);
      EndedKeepsSafe(v.(finished := true), 0);
    } else {
      var u := v.(handshakeSent := true, wire := Put(v.wire, HttpAnswer(Forbidden)));
      WroteAnswer(v, Forbidden);
      NotAccepted(v);
      FinishedKeepsSafe(u);
      EndedKeepsSafe(u.(handshakeSent := false, finished := true), 0);
    }
  }

  lemma NotAccepted(w: Ws)
    requires Safe(w) && !w.handshakeSent
    ensures !w.accepted
  {
  }

  lemma FailKeepsFlags(w: Ws, code: nat, reason: bytes)
    ensures var v := Fail(w, code, reason); v.handshakeSent == w.handshakeSent && v.finished == w.finished && v.accepted == w.accepted
  {
    hide ClosePayload, Put;
  }

  lemma ActKeepsSafe(w: Ws, a: Action)
    requires Safe(w) && Enabled(w, a)
    ensures Safe(Act(w, a))
  {
    hide Safe, FeedLoop, Finish;
    match a
    case Feed(data) =>
      var v := w.(buffer := w.buffer + data);
      assert Safe(v) by { BufferIsNotSafety(w, w.buffer + data); }
      FeedKeepsSafe(v);
    case End(raised) => FinishKeepsSafe(w, raised);
    case _ => AppStepKeepsSafe(w, a);
  }

  lemma BufferIsNotSafety(w: Ws, buffer: bytes)
    requires Safe(w)
    ensures Safe(w.(buffer := buffer))
  {
  }

  lemma {:induction false} RunKeepsSafe(start: Ws, actions: seq<Action>, w: Ws)
    requires Safe(start) && Reachable(start, actions, w)
    ensures Safe(w)
    decreases |actions|
  {
    hide Safe, Act;
    if actions != [] {
      ActKeepsSafe(start, actions[0]);
      RunKeepsSafe(Act(start, actions[0]), actions[1..], w);
    }
  }

  /** At most one close frame is ever written and no text or binary frame follows it;
      control frames carry at most 125 bytes; a completed run has tried to write exactly
      one HTTP answer (which answers reach the peer is the subject of `WsHandshake`); and
      the application never waits on an empty queue with reading off. */
  lemma EveryRunIsSafe(maxMessageSize: nat, answer: Answer, actions: seq<Action>, w: Ws)
    requires Reachable(Fresh(maxMessageSize, answer), actions, w)
    ensures Closes(w.wire.log) <= 1 && NoDataAfterClose(w.wire.log) && ControlFits(w.wire.log)
    ensures Https(w.wire.log) <= 1 && (w.finished ==> Https(w.wire.log) == 1)
    ensures DataAfterAnswer(w.wire.log, w.answer) && SentIsPrefix(w.wire.log)
    ensures ReceiveWaits(w) && w.wire.open ==> !w.wire.readPaused
    ensures w.wire.readPaused && w.wire.open ==> |w.incoming| > RESUME_READING_AT
  {
    assert Safe(Fresh(maxMessageSize, answer));
    RunKeepsSafe(Fresh(maxMessageSize, answer), actions, w);
  }

  ghost predicate DataOnlyAfterUpgrade(start: Ws) {
    forall actions: seq<Action>, w: Ws :: Reachable(start, actions, w) ==>
      DataAfterAnswer(w.wire.log, SwitchingProtocols)
  }

  /** Accepting a handshake that was answered with a refusal still lets data through:
      data frames are preceded by a 101 in every run exactly when the request's version
      and key are good. */
  lemma DataFollowsUpgradeIff(maxMessageSize: nat, answer: Answer)
    ensures DataOnlyAfterUpgrade(Fresh(maxMessageSize, answer)) <==> answer == SwitchingProtocols
  {
    var start := Fresh(maxMessageSize, answer);
    if answer == SwitchingProtocols {
      forall actions: seq<Action>, w: Ws | Reachable(start, actions, w)
        ensures DataAfterAnswer(w.wire.log, SwitchingProtocols)
      {
        EveryRunIsSafe(maxMessageSize, answer, actions, w);
        RunKeepsAnswer(start, actions, w);
      }
    } else {
      var second := AcceptedRun(maxMessageSize, answer);
      assert IsData(second.wire.log[1]);
      assert !DataAfterAnswer(second.wire.log, SwitchingProtocols);
    }
  }

  /** Accepting and sending: the data follows the answer, whatever the answer is. */
  lemma AcceptedRun(maxMessageSize: nat, answer: Answer) returns (w: Ws)
    ensures Reachable(Fresh(maxMessageSize, answer), [AskAccept, SendBinary([])], w)
    ensures w.wire.log == [Attempt(HttpAnswer(answer), true), Attempt(FrameWrite(OP_BINARY, []), true)]
  {
    var start := Fresh(maxMessageSize, answer);
    var first := Accept(start);
    w := Send(first, OP_BINARY, []);
    assert Reachable(w, [], w);
    assert [SendBinary([])][1..] == [];
    assert Reachable(first, [SendBinary([])], w);
    assert [AskAccept, SendBinary([])][1..] == [SendBinary([])];
  }

  lemma {:induction false} FeedKeepsAnswer(w: Ws)
    ensures FeedLoop(w).answer == w.answer
    decreases |w.buffer|
  {
    FrameShortens(w.buffer, w.maxMessageSize);
    hide NextFrame, HandleFrame, ClosePayload;
    match NextFrame(w.buffer, w.maxMessageSize)
    case GotFrame(f, rest) =>
      var r := HandleFrame(w.(buffer := rest), f);
      assert SameRest(w.(buffer := rest), r.next);
      hide Fail;
      if r.Fine? && !r.next.closed { FeedKeepsAnswer(PauseIfBehind(r.next)); }
      if r.Violated? { FailKeepsAnswer(r.next, r.error.Code(), r.error.Reason()); }
    case BadFrame(e) => FailKeepsAnswer(w, e.Code(), e.Reason());
    case _ =>
  }

  lemma FailKeepsAnswer(w: Ws, code: nat, reason: bytes)
    ensures Fail(w, code, reason).answer == w.answer
  {
    hide ClosePayload, Put;
  }

  lemma ActKeepsAnswer(w: Ws, a: Action)
    requires Enabled(w, a)
    ensures Act(w, a).answer == w.answer
  {
    hide FeedLoop, ClosePayload;
    if a.Feed? {
      FeedKeepsAnswer(w.(buffer := w.buffer + a.data));
    }
  }

  lemma {:induction false} RunKeepsAnswer(start: Ws, actions: seq<Action>, w: Ws)
    requires Reachable(start, actions, w)
    ensures w.answer == start.answer
    decreases |actions|
  {
    if actions != [] {
      ActKeepsAnswer(start, actions[0]);
      hide Act;
      RunKeepsAnswer(Act(start, actions[0]), actions[1..], w);
    }
  }
}
