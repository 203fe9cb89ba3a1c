/** Fragment reassembly (section 5.4 of RFC 6455): what the cycle queues is what a
    reader of the whole frame sequence assembles, however the bytes arrived and
    whatever the application did in between. */
module WsReassembly {
  import opened Bytes
  import opened WsFrames
  import opened WsSpec
  import opened WsSafety

  // -- the reference: messages of a finished frame sequence -----------------------

  function DataOnly(fs: seq<Frame>): seq<Frame> {
    if fs == [] then [] else (if fs[0].IsControl() then [] else [fs[0]]) + DataOnly(fs[1..])
  }

  function Payload(fs: seq<Frame>): bytes {
    if fs == [] then [] else fs[0].payload + Payload(fs[1..])
  }

  function FirstFin(fs: seq<Frame>): (r: Option<nat>)
    ensures r.Some? ==> r.value < |fs| && fs[r.value].fin && forall i :: 0 <= i < r.value ==> !fs[i].fin
    ensures r.None? ==> forall i :: 0 <= i < |fs| ==> !fs[i].fin
  {
    if fs == [] then None
    else if fs[0].fin then Some(0)
    else
      match FirstFin(fs[1..])
      case None => assert forall i :: 1 <= i < |fs| ==> fs[i] == fs[1..][i - 1]; None
      case Some(k) => assert forall i :: 1 <= i <= k + 1 ==> fs[i] == fs[1..][i - 1]; Some(k + 1)
  }

  /** A first frame with a type, then only continuations. */
  predicate Shape(fs: seq<Frame>) {
    && fs != [] && (fs[0].opcode == OP_TEXT || fs[0].opcode == OP_BINARY)
    && forall i :: 1 <= i < |fs| ==> fs[i].opcode == OP_CONTINUATION
  }

  predicate NoFin(fs: seq<Frame>) { forall i :: 0 <= i < |fs| ==> !fs[i].fin }

  /** All the frames of one message, which ends with the only FIN. */
  predicate GoodMessage(fs: seq<Frame>, maxSize: nat) {
    && Shape(fs) && fs[|fs| - 1].fin && NoFin(fs[..|fs| - 1])
    && |Payload(fs)| <= maxSize && MessageFor(fs[0].opcode, Payload(fs)).Some?
  }

  /** The frames so far of a message still arriving, if there is one. */
  predicate GoodTail(fs: seq<Frame>, maxSize: nat) {
    fs == [] || (Shape(fs) && NoFin(fs) && |Payload(fs)| <= maxSize)
  }

  /** The message of these frames: the payloads joined, with the first frame's type. */
  function Joined(fs: seq<Frame>, maxSize: nat): Message
    requires GoodMessage(fs, maxSize)
  {
    MessageFor(fs[0].opcode, Payload(fs)).value
  }

  datatype Assembled = Assembled(messages: seq<Message>, tail: seq<Frame>)

  function Prepend(messages: seq<Message>, a: Option<Assembled>): Option<Assembled> {
    if a.None? then None else Some(Assembled(messages + a.value.messages, a.value.tail))
  }

  /** Cut the data frames at each FIN; `None` when a piece is not a legal message. */
  function Assemble(fs: seq<Frame>, maxSize: nat): Option<Assembled>
    decreases |fs|
  {
    match FirstFin(fs)
    case None => if GoodTail(fs, maxSize) then Some(Assembled([], fs)) else None
    case Some(k) =>
      var first := fs[..k + 1];
      if !GoodMessage(first, maxSize) then None
      else Prepend([Joined(first, maxSize)], Assemble(fs[k + 1..], maxSize))
  }

  function Flatten(groups: seq<seq<Frame>>): seq<Frame> {
    if groups == [] then [] else groups[0] + Flatten(groups[1..])
  }

  function MessagesOf(groups: seq<seq<Frame>>, maxSize: nat): seq<Message>
    requires forall i :: 0 <= i < |groups| ==> GoodMessage(groups[i], maxSize)
  {
    if groups == [] then []
    else [Joined(groups[0], maxSize)] + MessagesOf(groups[1..], maxSize)
  }

  lemma FirstFinIs(fs: seq<Frame>, k: nat)
    requires k < |fs| && fs[k].fin && NoFin(fs[..k])
    ensures FirstFin(fs) == Some(k)
  {
    assert forall i :: 0 <= i < k ==> fs[i] == fs[..k][i];
  }

  // -- how the reference reacts to one more frame -----------------------------------

  lemma PayloadConcat(a: seq<Frame>, b: seq<Frame>)
    ensures Payload(a + b) == Payload(a) + Payload(b)
  {
    if a == [] {
      assert a + b == b;
    } else {
      assert (a + b)[1..] == a[1..] + b;
      PayloadConcat(a[1..], b);
    }
  }

  lemma PayloadSnoc(t: seq<Frame>, f: Frame)
    ensures Payload(t + [f]) == Payload(t) + f.payload
  {
    PayloadConcat(t, [f]);
    assert Payload([f]) == f.payload + Payload([]);
  }

  lemma BadTailStaysBad(t: seq<Frame>, rest: seq<Frame>, maxSize: nat)
    requires t != [] && NoFin(t) && !GoodTail(t, maxSize)
    ensures Assemble(t + rest, maxSize).None?
  {
    hide FirstFin, MessageFor, Payload, Shape;
    var all := t + rest;
    var k := FirstFin(all);
    FinIsBehind(t, rest);
    var piece := if k.Some? then all[..k.value + 1] else all;
    assert piece == t + piece[|t|..];
    LongerIsBad(t, piece[|t|..], maxSize);
    hide GoodMessage, GoodTail;
  }

  lemma FinIsBehind(t: seq<Frame>, rest: seq<Frame>)
    requires NoFin(t)
    ensures FirstFin(t + rest).Some? ==> FirstFin(t + rest).value >= |t|
  {
    assert forall i :: 0 <= i < |t| ==> (t + rest)[i] == t[i];
  }

  lemma LongerIsBad(t: seq<Frame>, more: seq<Frame>, maxSize: nat)
    requires t != [] && NoFin(t) && !GoodTail(t, maxSize)
    ensures !GoodMessage(t + more, maxSize) && !GoodTail(t + more, maxSize)
  {
    hide MessageFor, Payload;
    PayloadConcat(t, more);
    var piece := t + more;
    assert forall i :: 0 <= i < |t| ==> piece[i] == t[i];
    assert Shape(piece) ==> Shape(t);
  }

  lemma AssembleFin(t: seq<Frame>, f: Frame, rest: seq<Frame>, maxSize: nat)
    requires NoFin(t) && f.fin
    ensures Assemble(t + [f] + rest, maxSize) ==
            if !GoodMessage(t + [f], maxSize) then None
            else Prepend([Joined(t + [f], maxSize)], Assemble(rest, maxSize))
  {
    var all := t + [f] + rest;
    assert all[..|t|] == t;
    FirstFinIs(all, |t|);
    assert all[..|t| + 1] == t + [f] && all[|t| + 1..] == rest;
  }

  /** Fragmenting messages and assembling them again are inverse. */
  lemma {:induction false} AssembleGroups(groups: seq<seq<Frame>>, tail: seq<Frame>, maxSize: nat)
    requires forall i :: 0 <= i < |groups| ==> GoodMessage(groups[i], maxSize)
    requires GoodTail(tail, maxSize)
    ensures Assemble(Flatten(groups) + tail, maxSize) == Some(Assembled(MessagesOf(groups, maxSize), tail))
  {
    hide MessageFor, Payload, Shape;
    if groups == [] {
      assert Flatten(groups) + tail == tail;
    } else {
      hide Assemble, Joined;
      var g, rest := groups[0], Flatten(groups[1..]) + tail;
      assert GoodMessage(g, maxSize);
      EndsWithFin(g, maxSize);
      var t, f := g[..|g| - 1], g[|g| - 1];
      hide GoodMessage, GoodTail;
      assert g == t + [f];
      assert Flatten(groups) + tail == t + [f] + rest;
      AssembleFin(t, f, rest, maxSize);
      AssembleGroups(groups[1..], tail, maxSize);
    }
  }

  lemma EndsWithFin(g: seq<Frame>, maxSize: nat)
    requires GoodMessage(g, maxSize)
    ensures g != [] && g[|g| - 1].fin && NoFin(g[..|g| - 1])
  {
  }

  lemma PrependTwice(m: seq<Message>, n: seq<Message>, a: Option<Assembled>)
    ensures Prepend(m, Prepend(n, a)) == Prepend(m + n, a)
    ensures Prepend([], a) == a
  {
    if a.Some? {
      assert m + (n + a.value.messages) == m + n + a.value.messages;
      assert [] + a.value.messages == a.value.messages;
    }
  }

  /** What is assembled from a front part stands; the rest joins its open message. */
  lemma {:induction false} AssembleConcat(a: seq<Frame>, b: seq<Frame>, maxSize: nat)
    requires Assemble(a, maxSize).Some?
    ensures var front := Assemble(a, maxSize).value;
            Assemble(a + b, maxSize) == Prepend(front.messages, Assemble(front.tail + b, maxSize))
    decreases |a|
  {
    hide GoodMessage, GoodTail, Joined;
    match FirstFin(a)
    case None => PrependTwice([], [], Assemble(a + b, maxSize));
    case Some(k) => AssembleConcatFin(a, k, b, maxSize);
  }

  lemma {:induction false} AssembleConcatFin(a: seq<Frame>, k: nat, b: seq<Frame>, maxSize: nat)
    requires Assemble(a, maxSize).Some? && FirstFin(a) == Some(k)
    ensures var front := Assemble(a, maxSize).value;
            Assemble(a + b, maxSize) == Prepend(front.messages, Assemble(front.tail + b, maxSize))
    decreases |a|, 0
  {
    hide Assemble, GoodMessage, Joined;
    var t, f, rest := a[..k], a[k], a[k + 1..];
    assert a == t + [f] + rest;
    assert a + b == t + [f] + (rest + b);
    AssembleFin(t, f, rest, maxSize);
    AssembleFin(t, f, rest + b, maxSize);
    var m := [Joined(t + [f], maxSize)];
    assert Assemble(rest, maxSize).Some?;
    AssembleConcat(rest, b, maxSize);
    var front := Assemble(rest, maxSize).value;
    PrependTwice(m, front.messages, Assemble(front.tail + b, maxSize));
  }

  // -- the cycle, frame by frame --------------------------------------------------

  /** The cycle holds exactly the open message `t`: no open message, empty buffer. */
  predicate Holds(w: Ws, t: seq<Frame>) {
    && !w.closed && GoodTail(t, w.maxMessageSize) && w.fragments == Payload(t)
    && w.fragmentOpcode == if t == [] then 0 else t[0].opcode
  }

  function HandleAll(w: Ws, fs: seq<Frame>): Ws
    decreases |fs|
  {
    if fs == [] then w
    else
      match HandleFrame(w, fs[0])
      case Violated(next, e) => Fail(next, e.Code(), e.Reason())
      case Fine(next) => if next.closed then next else HandleAll(PauseIfBehind(next), fs[1..])
  }

  lemma HandleAllStep(w: Ws, fs: seq<Frame>)
    requires fs != []
    ensures var r := HandleFrame(w, fs[0]);
            HandleAll(w, fs) ==
              if r.Violated? then Fail(r.next, r.error.Code(), r.error.Reason())
              else if r.next.closed then r.next
              else HandleAll(PauseIfBehind(r.next), fs[1..])
  {
    hide HandleFrame, Fail, PauseIfBehind;
  }

  /** One more data frame fits behind the open message `t`. */
  predicate Fits(t: seq<Frame>, f: Frame, maxSize: nat) {
    && (f.opcode == OP_CONTINUATION <==> t != [])
    && |Payload(t) + f.payload| <= maxSize
  }

  lemma OneMoreFrame(t: seq<Frame>, f: Frame, maxSize: nat)
    requires GoodTail(t, maxSize) && IsDataOpcode(f.opcode)
    ensures var u := t + [f];
            && Payload(u) == Payload(t) + f.payload && u[0].opcode == (if t == [] then f.opcode else t[0].opcode)
            && (!f.fin ==> (GoodTail(u, maxSize) <==> Fits(t, f, maxSize)))
            && (f.fin ==> (GoodMessage(u, maxSize) <==>
                             Fits(t, f, maxSize) && MessageFor(u[0].opcode, Payload(u)).Some?))
  {
    hide MessageFor;
    var u := t + [f];
    PayloadSnoc(t, f);
    assert u[..|u| - 1] == t;
    assert t != [] ==> u[0] == t[0];
    assert forall i :: 1 <= i < |t| ==> u[i] == t[i];
    assert u[|t|] == f;
    hide Payload;
  }

  lemma HandleDataHolds(w: Ws, t: seq<Frame>, f: Frame)
    requires Holds(w, t) && IsDataOpcode(f.opcode)
    ensures NoFin(t) && SameRest(w, HandleFrame(w, f).next)
    ensures var r, u := HandleFrame(w, f), t + [f];
            if f.fin then
              && (r.Fine? <==> GoodMessage(u, w.maxMessageSize))
              && (r.Fine? ==> Holds(r.next, []) && r.next.incoming == w.incoming + [Joined(u, w.maxMessageSize)])
            else
              && (r.Fine? <==> GoodTail(u, w.maxMessageSize))
              && (r.Fine? ==> Holds(r.next, u) && r.next.incoming == w.incoming)
  {
    OneMoreFrame(t, f, w.maxMessageSize);
    TailIsOpen(t, w.maxMessageSize);
    assert Payload([]) == [];
    TakenDataIs(w, if f.opcode == OP_CONTINUATION then w.fragmentOpcode else f.opcode, w.fragments + f.payload, f.fin);
    hide TakeData, MessageFor, Payload, GoodTail, GoodMessage;
  }

  lemma TakenDataIs(w: Ws, opcode: Opcode, payload: bytes, fin: bool)
    ensures var r := TakeData(w, opcode, payload, fin);
            && (r.Fine? <==> |payload| <= w.maxMessageSize && (fin ==> MessageFor(opcode, payload).Some?))
            && r.next.closed == w.closed
            && (r.Fine? && fin ==> r.next.incoming == w.incoming + [MessageFor(opcode, payload).value]
                                   && r.next.fragments == [] && r.next.fragmentOpcode == 0)
            && (r.Fine? && !fin ==> r.next.incoming == w.incoming && r.next.fragments == payload && r.next.fragmentOpcode == opcode)
  {
    hide MessageFor;
  }

  lemma TailIsOpen(t: seq<Frame>, maxSize: nat)
    requires GoodTail(t, maxSize)
    ensures NoFin(t) && GoodTail([], maxSize) && (t != [] ==> t[0].opcode == OP_TEXT || t[0].opcode == OP_BINARY)
  {
  }

  ghost predicate AllChecked(fs: seq<Frame>, maxSize: nat) {
    forall i :: 0 <= i < |fs| ==> Checked(fs[i], maxSize)
  }

  predicate NoCloseFrame(fs: seq<Frame>) { forall i :: 0 <= i < |fs| ==> fs[i].opcode != OP_CLOSE }

  lemma HandleControlHolds(w: Ws, t: seq<Frame>, f: Frame)
    requires Holds(w, t) && f.IsControl()
    ensures var r := HandleFrame(w, f);
            if f.opcode == OP_CLOSE then r.Violated? || r.next.closed
            else r.Fine? && Holds(r.next, t) && r.next.incoming == w.incoming
  {
    hide ParseClose, ClosePayload, Payload;
  }

  lemma PauseHolds(w: Ws, t: seq<Frame>)
    requires Holds(w, t)
    ensures Holds(PauseIfBehind(w), t) && PauseIfBehind(w).incoming == w.incoming && SameRest(w, PauseIfBehind(w))
  {
    hide Payload;
  }

  lemma FailCloses(w: Ws, code: nat, reason: bytes)
    ensures Fail(w, code, reason).closed
  {
    hide ClosePayload;
  }

  /** From any open message, the cycle stays open exactly on the frames the reference
      assembles, and queues exactly its messages. */
  ghost predicate AssemblesTo(w: Ws, t: seq<Frame>, fs: seq<Frame>) {
    var v, a := HandleAll(w, fs), Assemble(t + DataOnly(fs), w.maxMessageSize);
    && (!v.closed <==> a.Some? && NoCloseFrame(fs))
    && (!v.closed ==>
          SameRest(w, v) && v.incoming == w.incoming + a.value.messages && Holds(v, a.value.tail))
  }

  lemma ControlAssembles(w: Ws, t: seq<Frame>, fs: seq<Frame>)
    requires fs != [] && fs[0].IsControl() && Holds(w, t)
    requires fs[0].opcode != OP_CLOSE ==> AssemblesTo(PauseIfBehind(HandleFrame(w, fs[0]).next), t, fs[1..])
    ensures AssemblesTo(w, t, fs)
  {
    hide HandleFrame, Assemble, Fail, Holds;
    var f, rest := fs[0], fs[1..];
    HandleControlHolds(w, t, f);
    var r := HandleFrame(w, f);
    assert SameRest(w, r.next);
    assert DataOnly(fs) == DataOnly(rest);
    assert NoCloseFrame(fs) <==> f.opcode != OP_CLOSE && NoCloseFrame(rest) by { NoCloseCons(fs); }
    if r.Violated? {
      FailCloses(r.next, r.error.Code(), r.error.Reason());
    } else if f.opcode != OP_CLOSE {
      HoldsIsOpen(r.next, t);
      PauseHolds(r.next, t);
    }
  }

  lemma HoldsIsOpen(w: Ws, t: seq<Frame>)
    requires Holds(w, t)
    ensures !w.closed
  {
  }

  lemma NoCloseCons(fs: seq<Frame>)
    requires fs != []
    ensures NoCloseFrame(fs) <==> fs[0].opcode != OP_CLOSE && NoCloseFrame(fs[1..])
  {
    assert forall i :: 1 <= i < |fs| ==> fs[i] == fs[1..][i - 1];
  }

  lemma DataOnlyCons(fs: seq<Frame>)
    requires fs != [] && !fs[0].IsControl()
    ensures DataOnly(fs) == [fs[0]] + DataOnly(fs[1..])
  {
  }

  lemma FinAssembles(w: Ws, t: seq<Frame>, fs: seq<Frame>)
    requires fs != [] && IsDataOpcode(fs[0].opcode) && fs[0].fin && Holds(w, t)
    requires var r := HandleFrame(w, fs[0]); r.Fine? ==> AssemblesTo(PauseIfBehind(r.next), [], fs[1..])
    ensures AssemblesTo(w, t, fs)
  {
    hide HandleFrame, HandleAll, Fail, GoodMessage, GoodTail, Joined, Assemble, DataOnly, NoCloseFrame, Holds, PauseIfBehind;
    var f, rest := fs[0], DataOnly(fs[1..]);
    HandleDataHolds(w, t, f);
    HandleAllStep(w, fs);
    NoCloseCons(fs);
    DataOnlyCons(fs);
    assert t + DataOnly(fs) == t + [f] + rest;
    AssembleFin(t, f, rest, w.maxMessageSize);
    assert [] + rest == rest;
    var r := HandleFrame(w, f);
    if r.Violated? {
      FailCloses(r.next, r.error.Code(), r.error.Reason());
    } else {
      HoldsIsOpen(r.next, []);
      PauseHolds(r.next, []);
    }
  }

  lemma FragmentAssembles(w: Ws, t: seq<Frame>, fs: seq<Frame>)
    requires fs != [] && IsDataOpcode(fs[0].opcode) && !fs[0].fin && Holds(w, t)
    requires var r := HandleFrame(w, fs[0]); r.Fine? ==> AssemblesTo(PauseIfBehind(r.next), t + [fs[0]], fs[1..])
    ensures AssemblesTo(w, t, fs)
  {
    hide HandleFrame, HandleAll, Fail, GoodTail, Assemble, DataOnly, NoCloseFrame, Holds, PauseIfBehind;
    var f, rest := fs[0], DataOnly(fs[1..]);
    var u := t + [f];
    HandleDataHolds(w, t, f);
    HandleAllStep(w, fs);
    NoCloseCons(fs);
    DataOnlyCons(fs);
    assert t + DataOnly(fs) == u + rest;
    var r := HandleFrame(w, f);
    if r.Violated? {
      BadTailStaysBad(u, rest, w.maxMessageSize);
      FailCloses(r.next, r.error.Code(), r.error.Reason());
    } else {
      HoldsIsOpen(r.next, u);
      PauseHolds(r.next, u);
    }
  }

  lemma {:induction false} HandleAllAssembles(w: Ws, t: seq<Frame>, fs: seq<Frame>)
    requires Holds(w, t) && AllChecked(fs, w.maxMessageSize)
    ensures AssemblesTo(w, t, fs)
    decreases |fs|
  {
    if fs == [] {
      assert t + DataOnly(fs) == t;
    } else {
      hide HandleData, HandleControl, AssemblesTo;
      var f, r := fs[0], HandleFrame(w, fs[0]);
      var u := if f.IsControl() then t else if f.fin then [] else t + [f];
      assert Checked(f, w.maxMessageSize);
      if f.IsControl() { HandleControlHolds(w, t, f); } else { HandleDataHolds(w, t, f); }
      assert SameRest(w, r.next);
      hide HandleFrame;
      if r.Fine? && !(f.opcode == OP_CLOSE) {
        PauseHolds(r.next, u);
        HandleAllAssembles(PauseIfBehind(r.next), u, fs[1..]);
      }
      if f.IsControl() {
        ControlAssembles(w, t, fs);
      } else if f.fin {
        FinAssembles(w, t, fs);
      } else {
        FragmentAssembles(w, t, fs);
      }
    }
  }
}
