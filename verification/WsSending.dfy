/** What the cycle sends: in every run, frame by frame, and what a client makes of the
    bytes. */
module WsSending {
  import opened Bytes
  import opened WsFrames
  import opened WsSpec
  import opened WsSafety
  import opened WsReassembly
  import opened WsRuns

  // -- the client's reader (section 5.2 of RFC 6455) -----------------------------------------

  /** Bytes as a number, the most significant first. */
  function Number(s: bytes): nat { if s == [] then 0 else 256 * Number(s[..|s| - 1]) + s[|s| - 1] }

  datatype ServerRead = ServerRead(frame: Frame, rest: bytes)

  /** One whole frame of a server, which is not masked. */
  function ReadServerFrame(b: bytes): (r: Option<ServerRead>)
    ensures r.Some? ==> |r.value.rest| < |b|
  {
    if |b| < 2 || (b[0] / 16) % 8 != 0 || b[1] >= 128 then None
    else
      var wide := if b[1] == 126 then 2 else if b[1] == 127 then 8 else 0;
      if |b| < 2 + wide then None
      else
        var n := if wide == 0 then b[1] as nat else Number(b[2..2 + wide]);
        var body := 2 + wide;
        if n >= 0x8000_0000_0000_0000 || |b| < body + n then None
        else Some(ServerRead(Frame(b[0] >= 128, b[0] % 16, b[body..body + n]), b[body + n..]))
  }

  /** All the whole frames at the front. */
  function ReadServerFrames(b: bytes): seq<Frame>
    decreases |b|
  {
    match ReadServerFrame(b)
    case None => []
    case Some(r) => [r.frame] + ReadServerFrames(r.rest)
  }

  lemma {:induction false} NumberIs(s: bytes)
    ensures Number(s) == FromBytes(s)
    decreases |s|
  {
    if s != [] { NumberIs(s[..|s| - 1]); }
  }

  lemma NumberRoundTrip(n: nat, length: nat)
    requires n < Power(256, length)
    ensures Number(ToBytes(n, length)) == n
  {
    FromToBytes(n, length);
    NumberIs(ToBytes(n, length));
  }

  /** Where the length stands, in each of its three encodings. */
  lemma LengthStands(opcode: Opcode, n: nat, fin: bool)
    requires n < 0x8000_0000_0000_0000
    ensures var head := FrameHead(opcode, n, fin, false);
            && |head| >= 2 && head[0] == (if fin then 128 else 0) + opcode && head[1] < 128
            && |head| == 2 + (if head[1] == 126 then 2 else if head[1] == 127 then 8 else 0)
            && n == if head[1] < 126 then head[1] as nat else Number(head[2..])
  {
    PowersOf256();
    hide Power, ToBytes, Number;
    var head := FrameHead(opcode, n, fin, false);
    if n < 126 {
    } else if n < 0x1_0000 {
      NumberRoundTrip(n, 2);
      assert head[2..] == ToBytes(n, 2);
    } else {
      NumberRoundTrip(n, 8);
      assert head[2..] == ToBytes(n, 8);
    }
  }

  /** What the server builds, the client reads back: opcode, FIN and payload, in exactly
      the bytes of the frame. */
  lemma BuiltFrameIsRead(opcode: Opcode, payload: bytes, fin: bool, rest: bytes)
    requires |payload| < 0x8000_0000_0000_0000
    ensures ReadServerFrame(BuildFrame(opcode, payload, fin) + rest) == Some(ServerRead(Frame(fin, opcode, payload), rest))
  {
    var head := FrameHead(opcode, |payload|, fin, false);
    LengthStands(opcode, |payload|, fin);
    hide FrameHead, Number;
    var b := BuildFrame(opcode, payload, fin) + rest;
    var n := |head|;
    assert b[..n] == head && b[0] == head[0] && b[1] == head[1];
    assert b[2..n] == head[2..];
    assert b[n..n + |payload|] == payload && b[n + |payload|..] == rest;
  }

  /** The frames that reach the peer, as the bytes the cycle writes. */
  function FrameBytes(frames: seq<Frame>): bytes
    requires forall i :: 0 <= i < |frames| ==> |frames[i].payload| < 0x8000_0000_0000_0000
  {
    if frames == [] then [] else BuildFrame(frames[0].opcode, frames[0].payload, frames[0].fin) + FrameBytes(frames[1..])
  }

  lemma {:induction false} ClientReadsFrames(frames: seq<Frame>)
    requires forall i :: 0 <= i < |frames| ==> |frames[i].payload| < 0x8000_0000_0000_0000
    ensures ReadServerFrames(FrameBytes(frames)) == frames
    decreases |frames|
  {
    if frames != [] {
      BuiltFrameIsRead(frames[0].opcode, frames[0].payload, frames[0].fin, FrameBytes(frames[1..]));
      hide ReadServerFrame, BuildFrame;
      ClientReadsFrames(frames[1..]);
    }
  }

  // -- what is to be said -----------------------------------------------------------------------

  /** A frame to be sent: this payload, or a close with this code and some reason. */
  datatype Saying = Exactly(opcode: Opcode, payload: bytes) | CloseWith(code: nat)

  predicate Says(f: Frame, s: Saying) {
    f.fin &&
    match s
    case Exactly(opcode, payload) => f.opcode == opcode && f.payload == payload
    case CloseWith(code) => f.opcode == OP_CLOSE && 2 <= |f.payload| <= 125 && Number(f.payload[..2]) == code
  }

  predicate SaysAll(frames: seq<Frame>, sayings: seq<Saying>) {
    |frames| == |sayings| && forall i :: 0 <= i < |frames| ==> Says(frames[i], sayings[i])
  }

  /** The frames that have reached the peer. */
  function SentFrames(log: seq<Attempt>): seq<Frame> {
    if log == [] then []
    else (if log[0].sent && log[0].write.FrameWrite? then [Frame(true, log[0].write.opcode, log[0].write.payload)] else []) + SentFrames(log[1..])
  }

  lemma {:induction false} SentConcat(a: seq<Attempt>, b: seq<Attempt>)
    ensures SentFrames(a + b) == SentFrames(a) + SentFrames(b)
    decreases |a|
  {
    if a == [] {
      assert a + b == b;
    } else {
      assert (a + b)[1..] == a[1..] + b;
      SentConcat(a[1..], b);
    }
  }

  lemma SentOne(a: Attempt)
    ensures SentFrames([a]) == if a.sent && a.write.FrameWrite? then [Frame(true, a.write.opcode, a.write.payload)] else []
  {
    assert [a][1..] == [];
    assert SentFrames([]) == [];
  }

  // -- what incoming frames are answered with ------------------------------------------------------

  /** The codes that a peer may put on the wire (section 7.4 of RFC 6455). */
  predicate MayBeSent(code: nat) {
    code == 1000 || code == 1001 || code == 1002 || code == 1003 || code == 1004 || (1007 <= code <= 1014) || (3000 <= code <= 4999)
  }

  /** The answer to a close frame: its own payload, 1000 for an empty one, or a failure. */
  function CloseReply(payload: bytes): Saying {
    if payload == [] then Exactly(OP_CLOSE, [3, 232])
    else if |payload| == 1 || !MayBeSent(Number(payload[..2])) then CloseWith(1002)
    else if !ValidUtf8(payload[2..]) then CloseWith(1007)
    else Exactly(OP_CLOSE, payload)
  }

  /** The code for a data frame behind the open message `t` that must not be there. */
  function DataFailure(t: seq<Frame>, f: Frame, maxSize: nat): Option<nat> {
    if f.opcode == OP_CONTINUATION && t == [] then Some(1002)
    else if f.opcode != OP_CONTINUATION && t != [] then Some(1002)
    else if |Payload(t) + f.payload| > maxSize then Some(1009)
    else if f.fin && (t + [f])[0].opcode == OP_TEXT && !ValidUtf8(Payload(t) + f.payload) then Some(1007)
    else None
  }

  /** What the frames are answered with, behind the open message `t`: a pong for every
      ping, up to the first close or failure; then the violation that ends them, if any. */
  function Replies(t: seq<Frame>, frames: seq<Frame>, error: Option<nat>, maxSize: nat): seq<Saying>
    decreases |frames|
  {
    if frames == [] then if error.Some? then [CloseWith(error.value)] else []
    else
      var f, rest := frames[0], frames[1..];
      if f.opcode == OP_PING then [Exactly(OP_PONG, f.payload)] + Replies(t, rest, error, maxSize)
      else if f.opcode == OP_PONG then Replies(t, rest, error, maxSize)
      else if f.opcode == OP_CLOSE then [CloseReply(f.payload)]
      else
        match DataFailure(t, f, maxSize)
        case Some(code) => [CloseWith(code)]
        case None => Replies(if f.fin then [] else t + [f], rest, error, maxSize)
  }

  function CodeOf(error: Option<WsError>): Option<nat> { if error.None? then None else Some(error.value.Code()) }

  lemma FailSays(w: Ws, code: nat, reason: bytes)
    requires !w.closed && w.wire.open && code < 0x1_0000 && code != CLOSE_NO_STATUS && code != CLOSE_ABNORMAL
    ensures var v := Fail(w, code, reason);
            exists a :: v.wire.log == w.wire.log + [a] && SaysAll(SentFrames([a]), [CloseWith(code)])
  {
    var payload := ToBytes(code, 2) + Truncated(reason);
    PowersOf256();
    NumberRoundTrip(code, 2);
    var a := Attempt(FrameWrite(OP_CLOSE, payload), true);
    SentOne(a);
    hide ToBytes, SentFrames, Number, Power;
    assert payload[..2] == ToBytes(code, 2);
    assert ClosePayload(code, reason) == Some(payload);
    assert Fail(w, code, reason).wire.log == w.wire.log + [a];
  }

  lemma CodeBytes(code: nat)
    requires code < 0x1_0000
    ensures ToBytes(code, 2) == [code / 256, code % 256]
  {
    assert ToBytes(code / 256, 1) == [] + [code / 256];
  }

  lemma ErrorCodesFit(e: WsError)
    ensures e.Code() == 1002 || e.Code() == 1007 || e.Code() == 1009
  {
  }

  lemma CodesAgree(code: nat)
    ensures ValidCloseCode(code) <==> MayBeSent(code)
  {
  }

  lemma TwoBytes(s: bytes)
    requires |s| == 2
    ensures FromBytes(s) == Number(s) < 0x1_0000 && ToBytes(FromBytes(s), 2) == s
  {
    ToFromBytes(s);
    NumberIs(s);
    assert s[..1][..0] == [];
    assert Number(s[..1]) == s[0] as nat;
  }

  lemma EchoSays(w: Ws, code: nat, reason: bytes)
    requires !w.closed && w.wire.open && |reason| <= 123 && code < 0x1_0000 && code != CLOSE_ABNORMAL
    ensures var v := EchoClose(w, code, reason);
            exists a :: v.wire.log == w.wire.log + [a] &&
              SentFrames([a]) == [Frame(true, OP_CLOSE, ToBytes(if code == CLOSE_NO_STATUS then CLOSE_NORMAL else code, 2) + reason)]
  {
    var payload := ToBytes(if code == CLOSE_NO_STATUS then CLOSE_NORMAL else code, 2) + reason;
    var a := Attempt(FrameWrite(OP_CLOSE, payload), true);
    SentOne(a);
    hide ToBytes, SentFrames;
    assert EchoClose(w, code, reason).wire.log == w.wire.log + [a];
  }

  /** A control frame on an open connection. */
  lemma ControlReplies(w: Ws, f: Frame)
    requires !w.closed && w.wire.open && f.IsControl() && |f.payload| <= 125
    ensures var r := HandleControl(w, f);
            if f.opcode == OP_PING then
              r.Fine? && !r.next.closed && r.next.wire.open
              && r.next.wire.log == w.wire.log + [Attempt(FrameWrite(OP_PONG, f.payload), true)]
            else if f.opcode == OP_PONG then r.Fine? && r.next == w
            else if CloseReply(f.payload).CloseWith? then
              r.Violated? && r.next == w && r.error.Code() == CloseReply(f.payload).code
            else
              r.Fine? && r.next.closed && exists a :: r.next.wire.log == w.wire.log + [a] && SaysAll(SentFrames([a]), [CloseReply(f.payload)])
  {
    hide SentFrames, CloseReply, ParseClose, EchoClose, SaysAll;
    if f.opcode == OP_CLOSE { CloseReplies(w, f.payload); }
  }

  /** A close is echoed, or it is a failure. */
  lemma CloseReplies(w: Ws, payload: bytes)
    requires !w.closed && w.wire.open && |payload| <= 125
    ensures match ParseClose(payload)
            case BadClose(e) => CloseReply(payload) == CloseWith(e.Code())
            case GoodClose(code, reason) =>
              var v := EchoClose(w, code, reason);
              && CloseReply(payload).Exactly? && v.closed
              && exists a :: v.wire.log == w.wire.log + [a] && SaysAll(SentFrames([a]), [CloseReply(payload)])
  {
    hide ValidUtf8, SentFrames, EchoClose;
    if payload == [] {
      CodeBytes(CLOSE_NORMAL);
      EchoSays(w, CLOSE_NO_STATUS, []);
      EchoCloses(w, CLOSE_NO_STATUS, []);
      assert [3, 232] + [] == [3 as byte, 232];
    } else if |payload| >= 2 {
      FullCloseReplies(w, payload);
    }
  }

  lemma FullCloseReplies(w: Ws, payload: bytes)
    requires !w.closed && w.wire.open && 2 <= |payload| <= 125
    ensures match ParseClose(payload)
            case BadClose(e) => CloseReply(payload) == CloseWith(e.Code())
            case GoodClose(code, reason) =>
              var v := EchoClose(w, code, reason);
              && CloseReply(payload) == Exactly(OP_CLOSE, payload) && v.closed
              && exists a :: v.wire.log == w.wire.log + [a] && SaysAll(SentFrames([a]), [CloseReply(payload)])
  {
    hide ValidUtf8, SentFrames, EchoClose;
    TwoBytes(payload[..2]);
    var code := FromBytes(payload[..2]);
    CodesAgree(code);
    assert payload[..2] + payload[2..] == payload;
    hide ToBytes, FromBytes, Number, ValidCloseCode, MayBeSent;
    if ParseClose(payload).GoodClose? {
      CodeIsPlain(code);
      EchoSays(w, code, payload[2..]);
      EchoCloses(w, code, payload[2..]);
    }
  }

  lemma CodeIsPlain(code: nat)
    ensures ValidCloseCode(code) ==> code != CLOSE_NO_STATUS && code != CLOSE_ABNORMAL
  {
  }

  lemma EchoCloses(w: Ws, code: int, reason: bytes)
    ensures EchoClose(w, code, reason).closed
  {
    hide ClosePayload;
  }

  lemma DataReplies(w: Ws, t: seq<Frame>, f: Frame)
    requires Holds(w, t) && IsDataOpcode(f.opcode)
    ensures var r := HandleData(w, f);
            && r.next.wire == w.wire && !r.next.closed
            && match DataFailure(t, f, w.maxMessageSize)
               case Some(code) => r.Violated? && r.error.Code() == code
               case None => r.Fine? && Holds(r.next, if f.fin then [] else t + [f])
  {
    HandleDataHolds(w, t, f);
    DataOnlyQueues(w, f);
    OneMoreFrame(t, f, w.maxMessageSize);
    OpenType(w, t);
    hide Payload, ValidUtf8, GoodMessage, GoodTail, SameRest, Holds, NoFin;
  }

  /** The type of the open message is that of its first frame. */
  lemma OpenType(w: Ws, t: seq<Frame>)
    requires Holds(w, t)
    ensures GoodTail(t, w.maxMessageSize) && !w.closed && w.fragments == Payload(t)
    ensures t == [] ==> w.fragmentOpcode == 0
    ensures t != [] ==> w.fragmentOpcode == t[0].opcode && (t[0].opcode == OP_TEXT || t[0].opcode == OP_BINARY)
  {
  }

  // -- reading ---------------------------------------------------------------------------------

  /** The log grew by frames that say this. */
  ghost predicate Adds(before: seq<Attempt>, after: seq<Attempt>, sayings: seq<Saying>) {
    exists more :: after == before + more && SaysAll(SentFrames(more), sayings)
  }

  lemma AddsNothing(log: seq<Attempt>)
    ensures Adds(log, log, [])
  {
    assert log == log + [] && SaysAll(SentFrames([]), []);
  }

  lemma AddsFurther(a: seq<Attempt>, b: seq<Attempt>, c: seq<Attempt>, x: seq<Saying>, y: seq<Saying>)
    requires Adds(a, b, x) && Adds(b, c, y)
    ensures Adds(a, c, x + y)
  {
    var m :| b == a + m && SaysAll(SentFrames(m), x);
    var n :| c == b + n && SaysAll(SentFrames(n), y);
    SentConcat(m, n);
    hide SentFrames, Says, SaysAll;
    SaysConcat(SentFrames(m), x, SentFrames(n), y);
    Regrouped(a, m, n);
  }

  lemma SaysConcat(a: seq<Frame>, x: seq<Saying>, b: seq<Frame>, y: seq<Saying>)
    requires SaysAll(a, x) && SaysAll(b, y)
    ensures SaysAll(a + b, x + y)
  {
    hide Says;
  }

  lemma Regrouped<T>(a: seq<T>, b: seq<T>, c: seq<T>)
    ensures a + b + c == a + (b + c)
  {
  }

  lemma AddsOne(log: seq<Attempt>, a: Attempt, s: Saying)
    requires a.sent && a.write.FrameWrite? && Says(Frame(true, a.write.opcode, a.write.payload), s)
    ensures Adds(log, log + [a], [s])
  {
    SentOne(a);
    assert SaysAll(SentFrames([a]), [s]);
  }

  lemma FailAdds(w: Ws, e: WsError)
    requires !w.closed && w.wire.open
    ensures Adds(w.wire.log, Fail(w, e.Code(), e.Reason()).wire.log, [CloseWith(e.Code())])
  {
    ErrorCodesFit(e);
    FailSays(w, e.Code(), e.Reason());
    hide Fail, SaysAll, SentFrames;
    var a :| Fail(w, e.Code(), e.Reason()).wire.log == w.wire.log + [a] && SaysAll(SentFrames([a]), [CloseWith(e.Code())]);
  }

  /** One frame: the reading goes on with what is then open, or this is the last reply. */
  function GoesOn(t: seq<Frame>, f: Frame, maxSize: nat): Option<seq<Frame>> {
    if f.opcode == OP_PING || f.opcode == OP_PONG then Some(t)
    else if f.opcode == OP_CLOSE then None
    else if DataFailure(t, f, maxSize).Some? then None
    else Some(if f.fin then [] else t + [f])
  }

  function FrameReply(t: seq<Frame>, f: Frame, maxSize: nat): seq<Saying> {
    if f.opcode == OP_PING then [Exactly(OP_PONG, f.payload)]
    else if f.opcode == OP_PONG then []
    else if f.opcode == OP_CLOSE then [CloseReply(f.payload)]
    else
      match DataFailure(t, f, maxSize)
      case Some(code) => [CloseWith(code)]
      case None => []
  }

  lemma RepliesStep(t: seq<Frame>, f: Frame, rest: seq<Frame>, error: Option<nat>, maxSize: nat)
    ensures Replies(t, [f] + rest, error, maxSize) ==
            FrameReply(t, f, maxSize) + if GoesOn(t, f, maxSize).Some? then Replies(GoesOn(t, f, maxSize).value, rest, error, maxSize) else []
  {
    hide DataFailure, CloseReply;
    assert ([f] + rest)[1..] == rest;
  }

  /** What the cycle makes of one frame, with what it then still has to read. */
  lemma HandledReplies(w: Ws, t: seq<Frame>, f: Frame)
    requires Holds(w, t) && w.wire.open && Checked(f, w.maxMessageSize)
    ensures var r := HandleFrame(w, f);
            var v := if r.Violated? then Fail(r.next, r.error.Code(), r.error.Reason()) else r.next;
            && Adds(w.wire.log, v.wire.log, FrameReply(t, f, w.maxMessageSize))
            && (v.closed <==> GoesOn(t, f, w.maxMessageSize).None?)
            && (!v.closed ==> r.Fine? && v.wire.open && Holds(v, GoesOn(t, f, w.maxMessageSize).value))
  {
    var r := HandleFrame(w, f);
    OpenType(w, t);
    if r.Violated? { FailCloses(r.next, r.error.Code(), r.error.Reason()); }
    if f.IsControl() {
      HandleControlHolds(w, t, f);
      ControlReplies(w, f);
      hide HandleControl, HandleFrame, Fail, CloseReply, Holds, Adds, SentFrames, SaysAll;
      if r.Violated? { FailAdds(r.next, r.error); }
      AddsNothing(w.wire.log);
      ControlAdds(w, f);
    } else {
      DataReplies(w, t, f);
      hide HandleData, Fail, DataFailure, Holds, Adds;
      if r.Violated? { FailAdds(r.next, r.error); }
      AddsNothing(w.wire.log);
    }
  }

  lemma ControlAdds(w: Ws, f: Frame)
    requires !w.closed && w.wire.open && f.IsControl() && |f.payload| <= 125
    ensures var r := HandleControl(w, f);
            && (f.opcode == OP_PING ==> Adds(w.wire.log, r.next.wire.log, [Exactly(OP_PONG, f.payload)]))
            && (f.opcode == OP_CLOSE && r.Fine? ==> Adds(w.wire.log, r.next.wire.log, [CloseReply(f.payload)]))
  {
    ControlReplies(w, f);
    hide HandleControl, CloseReply, SentFrames;
    if f.opcode == OP_PING { AddsOne(w.wire.log, Attempt(FrameWrite(OP_PONG, f.payload), true), Exactly(OP_PONG, f.payload)); }
    hide SaysAll;
  }

  lemma {:induction false} FeedLoopReplies(w: Ws, t: seq<Frame>)
    requires Holds(w, t) && w.wire.open
    ensures var d := DrainFrames(w.buffer, w.maxMessageSize);
            Adds(w.wire.log, FeedLoop(w).wire.log, Replies(t, d.frames, CodeOf(d.error), w.maxMessageSize))
    decreases |w.buffer|
  {
    var max := w.maxMessageSize;
    FrameShortens(w.buffer, max);
    FrameIsChecked(w.buffer, max);
    DrainFramesStep(w.buffer, max);
    var d := DrainFrames(w.buffer, max);
    OpenType(w, t);
    hide NextFrame, Fail, HandleFrame, Adds, Holds, Checked, GoesOn, FrameReply, Replies, PauseIfBehind;
    match NextFrame(w.buffer, max)
    case NoFrame =>
      NoReplies(t, None, max);
      AddsNothing(w.wire.log);
    case BadFrame(e) =>
      NoReplies(t, Some(e.Code()), max);
      FailAdds(w, e);
    case GotFrame(f, rest) =>
      var v := w.(buffer := rest);
      HoldsIgnoresBuffer(w, t, rest);
      HandledReplies(v, t, f);
      FeedLoopStep(w, f, rest);
      var more := DrainFrames(rest, max);
      RepliesStep(t, f, more.frames, CodeOf(more.error), max);
      var r := HandleFrame(v, f);
      assert SameRest(v, r.next);
      if GoesOn(t, f, max).Some? {
        var next := GoesOn(t, f, max).value;
        PauseHolds(r.next, next);
        PauseSays(r.next);
        var p := PauseIfBehind(r.next);
        FeedLoopReplies(p, next);
        AddsFurther(w.wire.log, p.wire.log, FeedLoop(p).wire.log, FrameReply(t, f, max), Replies(next, more.frames, CodeOf(more.error), max));
      } else {
        assert FrameReply(t, f, max) + [] == FrameReply(t, f, max);
      }
  }

  lemma NoReplies(t: seq<Frame>, error: Option<nat>, maxSize: nat)
    ensures Replies(t, [], error, maxSize) == if error.Some? then [CloseWith(error.value)] else []
  {
  }

  lemma PauseSays(w: Ws)
    ensures var p := PauseIfBehind(w);
            p.wire.log == w.wire.log && p.wire.open == w.wire.open && p.buffer == w.buffer && p.maxMessageSize == w.maxMessageSize
  {
  }

  // -- over every run -----------------------------------------------------------------------------

  /** What the close frame of an application carries: the code, and as much of the reason
      as fits. */
  function CloseText(code: nat, reason: bytes): bytes
    requires code < 0x1_0000
  {
    [code / 256, code % 256] + if |reason| <= 123 then reason else reason[..123]
  }

  /** A cycle that is closed, on a connection that is not, still answers a ping. */
  function LateReply(buffer: bytes, maxSize: nat): seq<Saying> {
    match NextFrame(buffer, maxSize)
    case GotFrame(f, _) => if f.opcode == OP_PING then [Exactly(OP_PONG, f.payload)] else []
    case _ => []
  }

  /** What a step sends, told from the flags of the cycle, the bytes fed so far and the
      step itself. */
  ghost function Sends(w: Ws, stream: bytes, a: Action): seq<Saying> {
    var max := w.maxMessageSize;
    if !w.wire.open then []
    else
      match a
      case SendText(text) => if w.accepted && !w.closed then [Exactly(OP_TEXT, text)] else []
      case SendBinary(data) => if w.accepted && !w.closed then [Exactly(OP_BINARY, data)] else []
      case AskClose(code, reason) =>
        if !w.handshakeSent || w.closed then []
        else if code == 1005 || code == 1006 then [Exactly(OP_CLOSE, [])]
        else if 0 <= code < 0x1_0000 then [Exactly(OP_CLOSE, CloseText(code, reason))]
        else []
      case End(raised) => if raised && !w.closed then [CloseWith(1011)] else []
      case Feed(data) =>
        if w.closed then LateReply(w.buffer + data, max)
        else if !Legible(stream, max) then []
        else
          var d := DrainFrames(DrainFrames(stream, max).rest + data, max);
          Replies(AssembledFrom(stream, max).tail, d.frames, CodeOf(d.error), max)
      case _ => []
  }

  ghost function SendsAll(w: Ws, stream: bytes, actions: seq<Action>): seq<Saying>
    decreases |actions|
  {
    if actions == [] || !Enabled(w, actions[0]) then []
    else
      var a := actions[0];
      Sends(w, stream, a) + SendsAll(Act(w, a), if a.Feed? then stream + a.data else stream, actions[1..])
  }

  lemma Unsent(log: seq<Attempt>, a: Attempt)
    requires !(a.sent && a.write.FrameWrite?)
    ensures Adds(log, log + [a], [])
  {
    SentOne(a);
    assert SaysAll(SentFrames([a]), []);
  }

  lemma NothingTwice(none: seq<Saying>)
    requires none == []
    ensures none + none == none
  {
  }

  lemma AppCloseSends(w: Ws, code: int, reason: bytes)
    requires w.handshakeSent && !w.closed && w.wire.open
    ensures Adds(w.wire.log, AppClose(w, code, reason).wire.log, Sends(w, [], AskClose(code, reason)))
  {
    hide Adds, ToBytes;
    AddsNothing(w.wire.log);
    if 0 <= code < 0x1_0000 {
      CodeBytes(code);
      if code != CLOSE_NO_STATUS && code != CLOSE_ABNORMAL {
        AddsOne(w.wire.log, Attempt(FrameWrite(OP_CLOSE, CloseText(code, reason)), true), Exactly(OP_CLOSE, CloseText(code, reason)));
      }
    }
    AddsOne(w.wire.log, Attempt(FrameWrite(OP_CLOSE, []), true), Exactly(OP_CLOSE, []));
  }

  lemma FinishSends(w: Ws, raised: bool)
    ensures Adds(w.wire.log, Finish(w, raised).wire.log, Sends(w, [], End(raised)))
  {
    hide Adds, Fail;
    AddsNothing(w.wire.log);
    if raised && !w.closed { EndSends(w); }
    var v := if raised && !w.closed then Fail(w, CLOSE_INTERNAL_ERROR, Ascii("internal error")) else w;
    if !v.handshakeSent {
      Unsent(v.wire.log, Attempt(HttpAnswer(Forbidden), v.wire.open));
      AddsFurther(w.wire.log, v.wire.log, Finish(w, raised).wire.log, Sends(w, [], End(raised)), []);
      assert Sends(w, [], End(raised)) + [] == Sends(w, [], End(raised));
    }
  }

  lemma EndSends(w: Ws)
    requires !w.closed
    ensures Adds(w.wire.log, Fail(w, CLOSE_INTERNAL_ERROR, Ascii("internal error")).wire.log, if w.wire.open then [CloseWith(1011)] else [])
  {
    var v := Fail(w, CLOSE_INTERNAL_ERROR, Ascii("internal error"));
    if w.wire.open {
      FailSays(w, CLOSE_INTERNAL_ERROR, Ascii("internal error"));
      hide Fail, SaysAll, SentFrames;
      var a :| v.wire.log == w.wire.log + [a] && SaysAll(SentFrames([a]), [CloseWith(1011)]);
    } else {
      ShutFails(w, CLOSE_INTERNAL_ERROR, Ascii("internal error"));
    }
  }

  lemma ShutFails(w: Ws, code: nat, reason: bytes)
    requires w.closed || !w.wire.open
    ensures Adds(w.wire.log, Fail(w, code, reason).wire.log, []) && (Fail(w, code, reason).closed || !Fail(w, code, reason).wire.open)
  {
    hide ClosePayload, Adds;
    AddsNothing(w.wire.log);
    var payload := ClosePayload(code, reason);
    Unsent(w.wire.log, Attempt(FrameWrite(OP_CLOSE, if payload.Some? then payload.value else []), w.wire.open && false));
  }

  lemma ShutHandles(w: Ws, f: Frame)
    requires !w.wire.open
    ensures var v := HandleFrame(w, f).next; !v.wire.open && Adds(w.wire.log, v.wire.log, [])
  {
    hide Adds, ParseClose, HandleData, EchoClose;
    AddsNothing(w.wire.log);
    DataOnlyQueues(w, f);
    Unsent(w.wire.log, Attempt(FrameWrite(OP_PONG, f.payload), false));
    if f.opcode == OP_CLOSE && ParseClose(f.payload).GoodClose? { ShutEchoes(w, ParseClose(f.payload).code, ParseClose(f.payload).reason); }
  }

  lemma ShutEchoes(w: Ws, code: int, reason: bytes)
    requires !w.wire.open
    ensures var v := EchoClose(w, code, reason); !v.wire.open && Adds(w.wire.log, v.wire.log, [])
  {
    hide Adds, ClosePayload;
    AddsNothing(w.wire.log);
    forall write ensures Adds(w.wire.log, w.wire.log + [Attempt(write, false)], []) { Unsent(w.wire.log, Attempt(write, false)); }
  }

  lemma {:induction false} ShutFeeds(w: Ws)
    requires !w.wire.open
    ensures Adds(w.wire.log, FeedLoop(w).wire.log, [])
    decreases |w.buffer|
  {
    FrameShortens(w.buffer, w.maxMessageSize);
    hide NextFrame, HandleFrame, Fail, Adds, PauseIfBehind;
    match NextFrame(w.buffer, w.maxMessageSize)
    case NoFrame => AddsNothing(w.wire.log);
    case BadFrame(e) => ShutFails(w, e.Code(), e.Reason());
    case GotFrame(f, rest) =>
      var v := w.(buffer := rest);
      var r := HandleFrame(v, f);
      assert SameRest(v, r.next);
      ShutHandles(v, f);
      FeedLoopStep(w, f, rest);
      NothingTwice([]);
      if r.Violated? {
        ShutFails(r.next, r.error.Code(), r.error.Reason());
        AddsFurther(w.wire.log, r.next.wire.log, Fail(r.next, r.error.Code(), r.error.Reason()).wire.log, [], []);
      } else if !r.next.closed {
        PauseSays(r.next);
        var p := PauseIfBehind(r.next);
        ShutFeeds(p);
        AddsFurther(w.wire.log, p.wire.log, FeedLoop(p).wire.log, [], []);
      }
  }

  lemma ClosedFeeds(w: Ws)
    requires w.closed && w.wire.open
    ensures Adds(w.wire.log, FeedLoop(w).wire.log, LateReply(w.buffer, w.maxMessageSize))
  {
    hide NextFrame, HandleFrame, Fail, Adds, PauseIfBehind;
    match NextFrame(w.buffer, w.maxMessageSize)
    case NoFrame => AddsNothing(w.wire.log);
    case BadFrame(e) => ShutFails(w, e.Code(), e.Reason());
    case GotFrame(f, rest) =>
      var v := w.(buffer := rest);
      var r := HandleFrame(v, f);
      FeedLoopStep(w, f, rest);
      ClosedHandles(v, f);
      if r.Violated? { ShutFails(r.next, r.error.Code(), r.error.Reason()); }
  }

  lemma ClosedHandles(w: Ws, f: Frame)
    requires w.closed && w.wire.open
    ensures var r := HandleFrame(w, f);
            && r.next.closed && (r.Violated? ==> r.next.wire == w.wire && f.opcode != OP_PING)
            && Adds(w.wire.log, r.next.wire.log, if f.opcode == OP_PING then [Exactly(OP_PONG, f.payload)] else [])
  {
    hide Adds, ParseClose, ClosePayload;
    AddsNothing(w.wire.log);
    DataOnlyQueues(w, f);
    AddsOne(w.wire.log, Attempt(FrameWrite(OP_PONG, f.payload), true), Exactly(OP_PONG, f.payload));
    hide HandleData;
  }

  /** One step of the cycle sends what it should. */
  lemma ActSends(w: Ws, stream: bytes, a: Action)
    requires Exact(w, stream) && Enabled(w, a)
    ensures Adds(w.wire.log, Act(w, a).wire.log, Sends(w, stream, a))
  {
    hide Adds, Finish, Fail, FeedLoop, ClosePayload, DrainFrames, Legible, AssembledFrom, Replies, Exact;
    AddsNothing(w.wire.log);
    match a
    case SendText(text) => SendSends(w, stream, OP_TEXT, text);
    case SendBinary(data) => SendSends(w, stream, OP_BINARY, data);
    case AskClose(code, reason) => CloseSends(w, stream, code, reason);
    case End(raised) => FinishSends(w, raised);
    case Feed(data) => FeedSends(w, stream, data);
    case AskAccept => Unsent(w.wire.log, Attempt(HttpAnswer(w.answer), w.wire.open));
    case _ =>
  }

  lemma SendSends(w: Ws, stream: bytes, opcode: Opcode, payload: bytes)
    ensures Adds(w.wire.log, Send(w, opcode, payload).wire.log,
                 if w.closed || !w.wire.open || !w.accepted then [] else [Exactly(opcode, payload)])
  {
    hide Adds;
    AddsNothing(w.wire.log);
    if w.wire.open { AddsOne(w.wire.log, Attempt(FrameWrite(opcode, payload), true), Exactly(opcode, payload)); }
    else { Unsent(w.wire.log, Attempt(FrameWrite(opcode, payload), false)); }
  }

  lemma CloseSends(w: Ws, stream: bytes, code: int, reason: bytes)
    ensures Adds(w.wire.log, AppClose(w, code, reason).wire.log, Sends(w, stream, AskClose(code, reason)))
  {
    hide Adds, ClosePayload;
    AddsNothing(w.wire.log);
    if !w.handshakeSent {
      Unsent(w.wire.log, Attempt(HttpAnswer(Forbidden), w.wire.open));
    } else if !w.closed && w.wire.open {
      AppCloseSends(w, code, reason);
    } else {
      forall write ensures Adds(w.wire.log, w.wire.log + [Attempt(write, false)], []) { Unsent(w.wire.log, Attempt(write, false)); }
    }
  }

  lemma FeedSends(w: Ws, stream: bytes, data: bytes)
    requires Exact(w, stream)
    ensures Adds(w.wire.log, FeedData(w, data).wire.log, Sends(w, stream, Feed(data)))
  {
    var fed := w.(buffer := w.buffer + data);
    hide DrainFrames, Adds, Replies, FeedLoop, Legible, AssembledFrom, Holds;
    if w.wire.open && w.closed {
      ClosedFeeds(fed);
    } else if w.wire.open {
      HoldsIgnoresBuffer(w, AssembledFrom(stream, w.maxMessageSize).tail, w.buffer + data);
      FeedLoopReplies(fed, AssembledFrom(stream, w.maxMessageSize).tail);
    } else {
      ShutFeeds(fed);
    }
  }

  lemma {:induction false} RunSends(start: Ws, stream: bytes, actions: seq<Action>, w: Ws)
    requires Exact(start, stream) && Reachable(start, actions, w)
    ensures Adds(start.wire.log, w.wire.log, SendsAll(start, stream, actions))
    decreases |actions|
  {
    hide Exact, Act, Enabled, Adds, Sends;
    if actions == [] {
      AddsNothing(start.wire.log);
    } else {
      var a := actions[0];
      ActSends(start, stream, a);
      ActsExactly(start, stream, a);
      var next, fed := Act(start, a), if a.Feed? then stream + a.data else stream;
      RunSends(next, fed, actions[1..], w);
      AddsFurther(start.wire.log, next.wire.log, w.wire.log, Sends(start, stream, a), SendsAll(next, fed, actions[1..]));
    }
  }

  /** In every run: the frames that reach the peer are, in order, the application's
      messages and close, a pong for every ping, the answer to the peer's close or to a
      violation, and the close of an application that raised; each with its payload. */
  lemma EveryFrameIsSentAsSaid(maxMessageSize: nat, answer: Answer, actions: seq<Action>, w: Ws)
    requires Reachable(Fresh(maxMessageSize, answer), actions, w)
    ensures SaysAll(SentFrames(w.wire.log), SendsAll(Fresh(maxMessageSize, answer), [], actions))
  {
    FreshIsExact(maxMessageSize, answer);
    RunSends(Fresh(maxMessageSize, answer), [], actions, w);
    hide SendsAll, SaysAll, SentFrames;
    var more :| w.wire.log == [] + more && SaysAll(SentFrames(more), SendsAll(Fresh(maxMessageSize, answer), [], actions));
    assert more == w.wire.log;
  }

  /** And a client that reads the bytes gets those frames. */
  lemma ClientGetsWhatIsSaid(maxMessageSize: nat, answer: Answer, actions: seq<Action>, w: Ws)
    requires Reachable(Fresh(maxMessageSize, answer), actions, w)
    requires forall i :: 0 <= i < |SentFrames(w.wire.log)| ==> |SentFrames(w.wire.log)[i].payload| < 0x8000_0000_0000_0000
    ensures SaysAll(ReadServerFrames(FrameBytes(SentFrames(w.wire.log))), SendsAll(Fresh(maxMessageSize, answer), [], actions))
  {
    EveryFrameIsSentAsSaid(maxMessageSize, answer, actions, w);
    ClientReadsFrames(SentFrames(w.wire.log));
    hide SaysAll, SendsAll, SentFrames, FrameBytes, ReadServerFrames;
  }

  // -- the messages of the application --------------------------------------------------------------

  /** The messages that the application sends on an accepted, open connection. */
  ghost function MessagesSent(w: Ws, actions: seq<Action>): seq<Saying>
    decreases |actions|
  {
    if actions == [] || !Enabled(w, actions[0]) then []
    else
      var a := actions[0];
      (if !w.wire.open || w.closed || !w.accepted then []
       else if a.SendText? then [Exactly(OP_TEXT, a.text)]
       else if a.SendBinary? then [Exactly(OP_BINARY, a.data)]
       else [])
      + MessagesSent(Act(w, a), actions[1..])
  }

  function DataSayings(sayings: seq<Saying>): seq<Saying> {
    if sayings == [] then []
    else (if sayings[0].Exactly? && IsDataOpcode(sayings[0].opcode) then [sayings[0]] else []) + DataSayings(sayings[1..])
  }

  function DataFrames(frames: seq<Frame>): seq<Frame> {
    if frames == [] then [] else (if IsDataOpcode(frames[0].opcode) then [frames[0]] else []) + DataFrames(frames[1..])
  }

  lemma {:induction false} DataConcat(a: seq<Saying>, b: seq<Saying>)
    ensures DataSayings(a + b) == DataSayings(a) + DataSayings(b)
    decreases |a|
  {
    if a == [] {
      assert a + b == b;
    } else {
      assert (a + b)[1..] == a[1..] + b;
      DataConcat(a[1..], b);
    }
  }

  lemma {:induction false} DataSaid(frames: seq<Frame>, sayings: seq<Saying>)
    requires SaysAll(frames, sayings)
    ensures SaysAll(DataFrames(frames), DataSayings(sayings))
    decreases |frames|
  {
    if frames != [] {
      assert Says(frames[0], sayings[0]);
      DataSaid(frames[1..], sayings[1..]);
      assert IsDataOpcode(frames[0].opcode) <==> sayings[0].Exactly? && IsDataOpcode(sayings[0].opcode);
    }
  }

  lemma DataOfOne(s: Saying)
    ensures DataSayings([s]) == if s.Exactly? && IsDataOpcode(s.opcode) then [s] else []
  {
    assert [s][1..] == [];
    assert DataSayings([]) == [];
  }

  lemma {:induction false} RepliesAreNoData(t: seq<Frame>, frames: seq<Frame>, error: Option<nat>, maxSize: nat)
    ensures DataSayings(Replies(t, frames, error, maxSize)) == []
    decreases |frames|
  {
    hide DataFailure, DataSayings, Says;
    if frames == [] {
      if error.Some? { DataOfOne(CloseWith(error.value)); }
      assert DataSayings([]) == [] by { NothingToSay(); }
    } else {
      var f, rest := frames[0], frames[1..];
      NothingToSay();
      if f.opcode == OP_PING {
        RepliesAreNoData(t, rest, error, maxSize);
        DataOfOne(Exactly(OP_PONG, f.payload));
        DataConcat([Exactly(OP_PONG, f.payload)], Replies(t, rest, error, maxSize));
      } else if f.opcode == OP_PONG {
        RepliesAreNoData(t, rest, error, maxSize);
      } else if f.opcode == OP_CLOSE {
        DataOfOne(CloseReply(f.payload));
      } else if DataFailure(t, f, maxSize).Some? {
        DataOfOne(CloseWith(DataFailure(t, f, maxSize).value));
      } else {
        RepliesAreNoData(if f.fin then [] else t + [f], rest, error, maxSize);
      }
    }
  }

  lemma NothingToSay()
    ensures DataSayings([]) == []
  {
  }

  lemma StepMessages(w: Ws, stream: bytes, a: Action)
    requires Enabled(w, a)
    ensures DataSayings(Sends(w, stream, a)) ==
            if !w.wire.open || w.closed || !w.accepted then []
            else if a.SendText? then [Exactly(OP_TEXT, a.text)]
            else if a.SendBinary? then [Exactly(OP_BINARY, a.data)]
            else []
  {
    hide Legible, AssembledFrom, DrainFrames, Replies, DataSayings, NextFrame;
    NothingToSay();
    forall s ensures DataSayings([s]) == if s.Exactly? && IsDataOpcode(s.opcode) then [s] else [] { DataOfOne(s); }
    if a.Feed? && Legible(stream, w.maxMessageSize) {
      var d := DrainFrames(DrainFrames(stream, w.maxMessageSize).rest + a.data, w.maxMessageSize);
      RepliesAreNoData(AssembledFrom(stream, w.maxMessageSize).tail, d.frames, CodeOf(d.error), w.maxMessageSize);
    }
  }

  lemma {:induction false} RunMessages(start: Ws, stream: bytes, actions: seq<Action>)
    ensures DataSayings(SendsAll(start, stream, actions)) == MessagesSent(start, actions)
    decreases |actions|
  {
    hide Sends, Act, Enabled, DataSayings;
    NothingToSay();
    if actions != [] && Enabled(start, actions[0]) {
      var a := actions[0];
      var fed := if a.Feed? then stream + a.data else stream;
      StepMessages(start, stream, a);
      RunMessages(Act(start, a), fed, actions[1..]);
      DataConcat(Sends(start, stream, a), SendsAll(Act(start, a), fed, actions[1..]));
    }
  }

  /** In every run: the data frames that reach the peer are, in order and with their
      payloads, the messages that the application sent on an accepted, open connection. */
  lemma MessagesAreSentAsSaid(maxMessageSize: nat, answer: Answer, actions: seq<Action>, w: Ws)
    requires Reachable(Fresh(maxMessageSize, answer), actions, w)
    ensures SaysAll(DataFrames(SentFrames(w.wire.log)), MessagesSent(Fresh(maxMessageSize, answer), actions))
  {
    EveryFrameIsSentAsSaid(maxMessageSize, answer, actions, w);
    RunMessages(Fresh(maxMessageSize, answer), [], actions);
    DataSaid(SentFrames(w.wire.log), SendsAll(Fresh(maxMessageSize, answer), [], actions));
    hide SaysAll, SendsAll, SentFrames, DataFrames, MessagesSent;
  }
}
