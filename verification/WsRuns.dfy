/** Bytes to messages over whole runs: in every reachable state in which the cycle is
    open, the messages handed over and queued are those of all the bytes fed. */
module WsRuns {
  import opened Bytes
  import opened WsFrames
  import opened WsSpec
  import opened WsSafety
  import opened WsReassembly

  // -- feeding bytes is feeding their frames ---------------------------------------

  function WithBuffer(r: Handled, buffer: bytes): Handled {
    match r
    case Fine(next) => Fine(next.(buffer := buffer))
    case Violated(next, e) => Violated(next.(buffer := buffer), e)
  }

  lemma ControlIgnoresBuffer(w: Ws, f: Frame, buffer: bytes)
    ensures HandleControl(w.(buffer := buffer), f) == WithBuffer(HandleControl(w, f), buffer)
  {
    hide ParseClose, ClosePayload, SameRest;
  }

  lemma TakingIgnoresBuffer(w: Ws, opcode: Opcode, payload: bytes, fin: bool, buffer: bytes)
    ensures TakeData(w.(buffer := buffer), opcode, payload, fin) == WithBuffer(TakeData(w, opcode, payload, fin), buffer)
  {
    hide MessageFor, SameRest;
  }

  lemma DataIgnoresBuffer(w: Ws, f: Frame, buffer: bytes)
    ensures HandleData(w.(buffer := buffer), f) == WithBuffer(HandleData(w, f), buffer)
  {
    hide TakeData, SameRest;
    TakingIgnoresBuffer(w, if f.opcode == OP_CONTINUATION then w.fragmentOpcode else f.opcode, w.fragments + f.payload, f.fin, buffer);
  }

  lemma HandleIgnoresBuffer(w: Ws, f: Frame, buffer: bytes)
    ensures HandleFrame(w.(buffer := buffer), f) == WithBuffer(HandleFrame(w, f), buffer)
  {
    hide HandleControl, HandleData;
    ControlIgnoresBuffer(w, f, buffer);
    DataIgnoresBuffer(w, f, buffer);
  }

  ghost predicate FeedsLike(w: Ws, d: Frames) {
    var v, u := FeedLoop(w), HandleAll(w.(buffer := d.rest), d.frames);
    && (!v.closed <==> d.error.None? && !u.closed)
    && (!v.closed ==> v == u)
  }

  lemma GotFrameFeedsLike(w: Ws, f: Frame, rest: bytes)
    requires NextFrame(w.buffer, w.maxMessageSize) == GotFrame(f, rest)
    requires var r := HandleFrame(w.(buffer := rest), f);
             r.Fine? && !r.next.closed ==> FeedsLike(PauseIfBehind(r.next), DrainFrames(rest, w.maxMessageSize))
    ensures FeedsLike(w, DrainFrames(w.buffer, w.maxMessageSize))
  {
    hide NextFrame, HandleFrame, Fail, PauseIfBehind, FeedLoop, HandleAll, DrainFrames;
    var all, more := DrainFrames(w.buffer, w.maxMessageSize), DrainFrames(rest, w.maxMessageSize);
    DrainFramesStep(w.buffer, w.maxMessageSize);
    assert all.frames[1..] == more.frames;
    var v, u := w.(buffer := rest), w.(buffer := more.rest);
    var r := HandleFrame(v, f);
    HandleIgnoresBuffer(v, f, more.rest);
    assert HandleFrame(u, f) == WithBuffer(r, more.rest);
    FeedLoopStep(w, f, rest);
    HandleAllStep(u, all.frames);
    if r.Violated? {
      FailCloses(r.next, r.error.Code(), r.error.Reason());
      FailCloses(r.next.(buffer := more.rest), r.error.Code(), r.error.Reason());
    } else if !r.next.closed {
      PauseIgnoresBuffer(r.next, more.rest);
    }
  }

  lemma DrainFramesStep(buffer: bytes, maxSize: nat)
    ensures match NextFrame(buffer, maxSize)
            case GotFrame(f, rest) =>
              var more := DrainFrames(rest, maxSize);
              DrainFrames(buffer, maxSize) == Frames([f] + more.frames, more.rest, more.error)
            case _ => true
  {
    hide NextFrame;
  }

  lemma PauseIgnoresBuffer(w: Ws, buffer: bytes)
    ensures PauseIfBehind(w.(buffer := buffer)) == PauseIfBehind(w).(buffer := buffer)
  {
  }

  lemma FeedLoopStep(w: Ws, f: Frame, rest: bytes)
    requires NextFrame(w.buffer, w.maxMessageSize) == GotFrame(f, rest)
    ensures var r := HandleFrame(w.(buffer := rest), f);
            FeedLoop(w) ==
              if r.Violated? then Fail(r.next, r.error.Code(), r.error.Reason())
              else if r.next.closed then r.next
              else FeedLoop(PauseIfBehind(r.next))
  {
    hide NextFrame, HandleFrame, Fail, PauseIfBehind;
  }

  lemma {:induction false} FeedLoopIsHandleAll(w: Ws)
    requires !w.closed
    ensures FeedsLike(w, DrainFrames(w.buffer, w.maxMessageSize))
    decreases |w.buffer|
  {
    FrameShortens(w.buffer, w.maxMessageSize);
    hide NextFrame, HandleFrame, Fail;
    match NextFrame(w.buffer, w.maxMessageSize)
    case NoFrame =>
    case BadFrame(e) => FailCloses(w, e.Code(), e.Reason());
    case GotFrame(f, rest) =>
      var r := HandleFrame(w.(buffer := rest), f);
      assert SameRest(w.(buffer := rest), r.next);
      hide FeedsLike;
      if r.Fine? && !r.next.closed {
        FeedLoopIsHandleAll(PauseIfBehind(r.next));
      }
      GotFrameFeedsLike(w, f, rest);
  }

  lemma {:induction false} DrainedAreChecked(buffer: bytes, maxSize: nat)
    ensures AllChecked(DrainFrames(buffer, maxSize).frames, maxSize)
    decreases |buffer|
  {
    FrameShortens(buffer, maxSize);
    FrameIsChecked(buffer, maxSize);
    hide NextFrame, Checked;
    if NextFrame(buffer, maxSize).GotFrame? {
      DrainedAreChecked(NextFrame(buffer, maxSize).rest, maxSize);
    }
  }

  // -- what an open cycle has made of a stream ----------------------------------------

  /** The stream is a sequence of legal frames and legal fragments without a close. */
  predicate Legible(stream: bytes, maxSize: nat) {
    var d := DrainFrames(stream, maxSize);
    d.error.None? && NoCloseFrame(d.frames) && Assemble(DataOnly(d.frames), maxSize).Some?
  }

  function AssembledFrom(stream: bytes, maxSize: nat): Assembled
    requires Legible(stream, maxSize)
  {
    Assemble(DataOnly(DrainFrames(stream, maxSize).frames), maxSize).value
  }

  /** Handed over, then queued, are exactly the messages of the stream, in order; the
      fragments are those of its open message; the buffer is its unfinished frame. */
  predicate Exact(w: Ws, stream: bytes) {
    !w.closed ==>
      && Legible(stream, w.maxMessageSize)
      && w.received + w.incoming == AssembledFrom(stream, w.maxMessageSize).messages
      && Holds(w, AssembledFrom(stream, w.maxMessageSize).tail)
      && w.buffer == DrainFrames(stream, w.maxMessageSize).rest
  }

  lemma DataOnlyConcat(a: seq<Frame>, b: seq<Frame>)
    ensures DataOnly(a + b) == DataOnly(a) + DataOnly(b)
  {
    if a == [] {
      assert a + b == b;
    } else {
      assert (a + b)[1..] == a[1..] + b;
      DataOnlyConcat(a[1..], b);
    }
  }

  lemma NoCloseConcat(a: seq<Frame>, b: seq<Frame>)
    ensures NoCloseFrame(a + b) <==> NoCloseFrame(a) && NoCloseFrame(b)
  {
    assert forall i :: 0 <= i < |a| ==> (a + b)[i] == a[i];
    assert forall i :: 0 <= i < |b| ==> (a + b)[|a| + i] == b[i];
  }

  /** The frames of a longer stream, seen from where the shorter one stopped. */
  lemma LegibleExtends(stream: bytes, x: bytes, maxSize: nat)
    requires Legible(stream, maxSize)
    ensures var first := DrainFrames(stream, maxSize);
            var second := DrainFrames(first.rest + x, maxSize);
            var a := AssembledFrom(stream, maxSize);
            var b := Assemble(a.tail + DataOnly(second.frames), maxSize);
            && (Legible(stream + x, maxSize) <==> second.error.None? && NoCloseFrame(second.frames) && b.Some?)
            && (Legible(stream + x, maxSize) ==>
                  && AssembledFrom(stream + x, maxSize) == Assembled(a.messages + b.value.messages, b.value.tail)
                  && DrainFrames(stream + x, maxSize).rest == second.rest)
  {
    hide DrainFrames, Assemble, DataOnly, NoCloseFrame;
    DrainFramesTwoGoes(stream, x, maxSize);
    var first := DrainFrames(stream, maxSize);
    var second := DrainFrames(first.rest + x, maxSize);
    DataOnlyConcat(first.frames, second.frames);
    NoCloseConcat(first.frames, second.frames);
    AssembleConcat(DataOnly(first.frames), DataOnly(second.frames), maxSize);
  }

  lemma HoldsIgnoresBuffer(w: Ws, t: seq<Frame>, buffer: bytes)
    requires Holds(w, t)
    ensures Holds(w.(buffer := buffer), t)
  {
  }

  lemma FedExactly(w: Ws, stream: bytes, x: bytes)
    requires Exact(w, stream) && !w.closed
    ensures var v := FeedData(w, x);
            (!v.closed <==> Legible(stream + x, w.maxMessageSize)) && Exact(v, stream + x)
            && v.maxMessageSize == w.maxMessageSize
  {
    hide FeedLoop, HandleAll, Legible, AssembledFrom, DrainFrames, Assemble, DataOnly, Holds, NoCloseFrame;
    var max := w.maxMessageSize;
    LegibleExtends(stream, x, max);
    var fed := w.(buffer := w.buffer + x);
    var a := AssembledFrom(stream, max);
    var second := DrainFrames(fed.buffer, max);
    FeedLoopIsHandleAll(fed);
    DrainedAreChecked(fed.buffer, max);
    var start := fed.(buffer := second.rest);
    HoldsIgnoresBuffer(w, a.tail, second.rest);
    HandleAllAssembles(start, a.tail, second.frames);
    FeedKeepsSize(fed);
    var v := FeedLoop(fed);
    if !v.closed {
      var b := Assemble(a.tail + DataOnly(second.frames), max).value;
      assert w.received + (w.incoming + b.messages) == w.received + w.incoming + b.messages;
    }
  }

  lemma {:induction false} FeedKeepsSize(w: Ws)
    ensures FeedLoop(w).maxMessageSize == w.maxMessageSize
    ensures w.closed ==> FeedLoop(w).closed
    decreases |w.buffer|
  {
    FrameShortens(w.buffer, w.maxMessageSize);
    hide NextFrame, HandleFrame, ClosePayload;
    match NextFrame(w.buffer, w.maxMessageSize)
    case GotFrame(f, rest) =>
      var r := HandleFrame(w.(buffer := rest), f);
      assert SameRest(w.(buffer := rest), r.next);
      StaysClosed(w.(buffer := rest), f);
      hide Fail;
      if r.Fine? && !r.next.closed { FeedKeepsSize(PauseIfBehind(r.next)); }
      if r.Violated? { FailKeepsSize(r.next, r.error.Code(), r.error.Reason()); }
    case BadFrame(e) => FailKeepsSize(w, e.Code(), e.Reason());
    case _ =>
  }

  lemma FailKeepsSize(w: Ws, code: nat, reason: bytes)
    ensures Fail(w, code, reason).maxMessageSize == w.maxMessageSize && Fail(w, code, reason).closed
  {
    hide ClosePayload, Put;
  }

  lemma StaysClosed(w: Ws, f: Frame)
    ensures w.closed ==> HandleFrame(w, f).next.closed
  {
    hide ParseClose, ClosePayload, MessageFor;
  }

  lemma ActsExactly(w: Ws, stream: bytes, a: Action)
    requires Exact(w, stream) && Enabled(w, a)
    ensures Exact(Act(w, a), if a.Feed? then stream + a.data else stream)
  {
    hide FeedLoop, ClosePayload, Legible, AssembledFrom, DrainFrames, Payload;
    match a
    case Feed(data) =>
      if w.closed {
        FeedKeepsSize(w.(buffer := w.buffer + data));
      } else {
        FedExactly(w, stream, data);
        hide Exact;
      }
    case AskReceive => ReceivesExactly(w, stream); hide Receive, Exact;
    case _ =>
  }

  lemma ReceivesExactly(w: Ws, stream: bytes)
    requires Exact(w, stream) && !ReceiveWaits(w)
    ensures Exact(Receive(w), stream)
  {
    hide Legible, AssembledFrom, DrainFrames, Payload;
    if w.connectSent {
      assert w.incoming == [w.incoming[0]] + w.incoming[1..];
      assert w.received + w.incoming == w.received + [w.incoming[0]] + w.incoming[1..];
    }
  }

  lemma {:induction false} RunIsExact(start: Ws, stream: bytes, actions: seq<Action>, w: Ws)
    requires Exact(start, stream) && Reachable(start, actions, w)
    ensures Exact(w, stream + Fed(actions))
    decreases |actions|
  {
    hide Exact, Act, Enabled;
    if actions == [] {
      assert stream + [] == stream;
    } else {
      ActsExactly(start, stream, actions[0]);
      var fed := if actions[0].Feed? then stream + actions[0].data else stream;
      RunIsExact(Act(start, actions[0]), fed, actions[1..], w);
      assert fed + Fed(actions[1..]) == stream + Fed(actions);
    }
  }

  /** Over every run: while the cycle is open, the messages received and queued are,
      in order, the joined payloads of the data messages of all the bytes fed, each
      with the type of its first fragment, unaffected by the control frames between. */
  lemma EveryRunIsExact(maxMessageSize: nat, answer: Answer, actions: seq<Action>, w: Ws)
    requires Reachable(Fresh(maxMessageSize, answer), actions, w) && !w.closed
    ensures w.maxMessageSize == maxMessageSize && Legible(Fed(actions), maxMessageSize)
    ensures w.received + w.incoming == AssembledFrom(Fed(actions), maxMessageSize).messages
    ensures w.fragments == Payload(AssembledFrom(Fed(actions), maxMessageSize).tail)
    ensures w.fragmentOpcode == 0 <==> AssembledFrom(Fed(actions), maxMessageSize).tail == []
  {
    var start := Fresh(maxMessageSize, answer);
    assert Exact(start, []) by { FreshIsExact(maxMessageSize, answer); }
    RunIsExact(start, [], actions, w);
    assert [] + Fed(actions) == Fed(actions);
    RunKeepsSize(start, actions, w);
    hide Legible, AssembledFrom, DrainFrames, Payload;
  }

  lemma FreshIsExact(maxMessageSize: nat, answer: Answer)
    ensures Exact(Fresh(maxMessageSize, answer), [])
  {
    EmptyIsNoFrame(maxMessageSize);
    hide NextFrame;
    assert DrainFrames([], maxMessageSize) == Frames([], [], None);
  }

  lemma {:induction false} RunKeepsSize(start: Ws, actions: seq<Action>, w: Ws)
    requires Reachable(start, actions, w)
    ensures w.maxMessageSize == start.maxMessageSize
    decreases |actions|
  {
    if actions != [] {
      ActKeepsSize(start, actions[0]);
      hide Act;
      RunKeepsSize(Act(start, actions[0]), actions[1..], w);
    }
  }

  lemma ActKeepsSize(w: Ws, a: Action)
    requires Enabled(w, a)
    ensures Act(w, a).maxMessageSize == w.maxMessageSize
  {
    hide FeedLoop, ClosePayload;
    if a.Feed? {
      FeedKeepsSize(w.(buffer := w.buffer + a.data));
    }
  }

  /** Bytes close an open cycle exactly when they make the stream illegible: a broken
      frame, an illegal continuation, a message too large or not UTF-8, or a close. */
  lemma FeedClosesIff(maxMessageSize: nat, answer: Answer, actions: seq<Action>, w: Ws, data: bytes)
    requires Reachable(Fresh(maxMessageSize, answer), actions, w) && !w.closed
    ensures FeedData(w, data).closed <==> !Legible(Fed(actions) + data, maxMessageSize)
  {
    var start := Fresh(maxMessageSize, answer);
    FreshIsExact(maxMessageSize, answer);
    RunIsExact(start, [], actions, w);
    RunKeepsSize(start, actions, w);
    assert [] + Fed(actions) == Fed(actions);
    FedExactly(w, Fed(actions), data);
  }

  /** End to end: any messages, cut into any fragments with pings and pongs between,
      masked and cut into any reads, come out as exactly those messages. */
  lemma MessagesSurvive(groups: seq<seq<Frame>>, fs: seq<Frame>, masks: seq<bytes>, maxSize: nat)
    requires forall i :: 0 <= i < |groups| ==> GoodMessage(groups[i], maxSize)
    requires AllLegal(fs, masks, maxSize) && NoCloseFrame(fs) && DataOnly(fs) == Flatten(groups)
    ensures Legible(ClientStream(fs, masks), maxSize)
    ensures AssembledFrom(ClientStream(fs, masks), maxSize) == Assembled(MessagesOf(groups, maxSize), [])
  {
    StreamRoundTrip(fs, masks, maxSize);
    AssembleGroups(groups, [], maxSize);
    assert Flatten(groups) + [] == Flatten(groups);
    hide Assemble, DrainFrames, ClientStream;
  }

  // -- the closing handshake ------------------------------------------------------

  lemma CloseCodeRoundTrip(code: nat)
    requires code < 0x1_0000
    ensures FromBytes(ToBytes(code, 2)) == code
  {
    PowersOf256();
    FromToBytes(code, 2);
  }

  /** Whatever code and reason an application closes with: the frame is sent if the code
      fits two bytes, and is read back as that code and the reason cut at 123 bytes if
      and only if the code may be sent and the cut reason is still UTF-8. "No status"
      without a reason is read back as well; the two codes for "nothing was sent" lose
      their reason. */
  lemma CloseRoundTripIff(code: int, reason: bytes)
    ensures ClosePayload(code, reason).Some? <==> 0 <= code < 0x1_0000
    ensures 0 <= code < 0x1_0000 ==>
              var r := ParseClose(ClosePayload(code, reason).value);
              && (r == GoodClose(code, Truncated(reason)) <==>
                    (ValidCloseCode(code) && ValidUtf8(Truncated(reason))) || (code == CLOSE_NO_STATUS && reason == []))
              && (r.GoodClose? <==>
                    (ValidCloseCode(code) && ValidUtf8(Truncated(reason))) || code == CLOSE_NO_STATUS || code == CLOSE_ABNORMAL)
  {
    if 0 <= code < 0x1_0000 && code != CLOSE_NO_STATUS && code != CLOSE_ABNORMAL {
      CloseCodeRoundTrip(code);
      var payload := ToBytes(code, 2) + Truncated(reason);
      assert payload[..2] == ToBytes(code, 2) && payload[2..] == Truncated(reason);
      hide ValidUtf8;
    }
  }

  /** 62 two-byte characters are valid, and their first 123 bytes are not. */
  lemma TruncationCutsACharacter(c: bytes, n: nat)
    requires c == [0xC3, 0xA9] && n == 62
    ensures var reason := Concat(seq(n, i => c));
            ValidUtf8(reason) && |reason| == 124 && !ValidUtf8(Truncated(reason))
  {
    var pieces := seq(n, i => c);
    TwoByteText(pieces, c, []);
    var reason := Concat(pieces);
    assert reason + [] == reason;
    var front := seq(n - 1, i => c);
    assert pieces == front + [c];
    ConcatAppend(front, [c]);
    assert Concat([c]) == c + Concat([]);
    TwoByteText(front, c, [0xC3]);
    assert reason[..123] == Concat(front) + [0xC3];
    assert Utf8Length([0xC3]) == 0;
  }

  lemma OneCharacter(c: bytes, rest: bytes)
    requires c == [0xC3, 0xA9]
    ensures ValidUtf8(c + rest) <==> ValidUtf8(rest)
  {
    var s := c + rest;
    assert s[0] == 0xC3 && s[1] == 0xA9;
    assert Utf8Length(s) == 2;
    assert s[2..] == rest;
  }

  lemma {:induction false} TwoByteText(pieces: seq<bytes>, c: bytes, tail: bytes)
    requires c == [0xC3, 0xA9] && forall i :: 0 <= i < |pieces| ==> pieces[i] == c
    ensures |Concat(pieces)| == 2 * |pieces|
    ensures ValidUtf8(Concat(pieces) + tail) <==> ValidUtf8(tail)
    decreases |pieces|
  {
    if pieces == [] {
      assert Concat(pieces) + tail == tail;
    } else {
      TwoByteText(pieces[1..], c, tail);
      assert Concat(pieces) + tail == c + (Concat(pieces[1..]) + tail);
      OneCharacter(c, Concat(pieces[1..]) + tail);
      hide ValidUtf8;
    }
  }
}
