/** The WebSocket cycle in its own form: an object over a frame parser and the
    connection, whose methods update its fields in place. */
module WebSocket {
  import opened Bytes
  import opened WsFrames
  import opened WsSpec

  /** The connection as the cycle uses it: writes after it closed are dropped. */
  class Connection {
    var open: bool
    var readPaused: bool
    ghost var log: seq<Attempt>

    ghost function State(): Wire
      reads this
    {
      Wire(open, readPaused, log)
    }

    constructor ()
      ensures State() == Wire(true, false, [])
    {
      open, readPaused, log := true, false, [];
    }

    method Write(w: Write)
      modifies this
      ensures State() == Put(old(State()), w)
    {
      log := log + [Attempt(w, open)];
    }

    method PauseReading()
      modifies this
      ensures State() == WsSpec.PauseReading(old(State()))
    {
      if readPaused || !open {
        return;
      }
      readPaused := true;
    }

    method ResumeReading()
      modifies this
      ensures State() == WsSpec.ResumeReading(old(State()))
    {
      if !readPaused || !open {
        return;
      }
      readPaused := false;
    }

    method Close()
      modifies this
      ensures State() == WsSpec.Close(old(State()))
    {
      open := false;
    }
  }

  class WebSocketCycle {
    const protocol: Connection
    const parser: FrameParser
    const answer: Answer
    const maxMessageSize: nat
    var incoming: seq<Message>
    var fragments: bytes
    var fragmentOpcode: Opcode
    var accepted: bool
    var closed: bool
    var handshakeSent: bool
    var connectSent: bool
    var disconnected: bool
    ghost var received: seq<Message>
    ghost var finished: bool

    ghost function State(): Ws
      reads this, parser, protocol
    {
      Ws(maxMessageSize, answer, parser.buffer, fragments, fragmentOpcode, incoming, received,
         accepted, closed, handshakeSent, connectSent, disconnected, finished, protocol.State())
    }

    ghost predicate Valid() { parser.maxFrameSize == maxMessageSize }

    constructor (protocol: Connection, maxMessageSize: nat, answer: Answer)
      ensures Valid() && fresh(parser) && this.protocol == protocol
      ensures State() == Fresh(maxMessageSize, answer).(wire := protocol.State())
    {
      this.protocol, this.maxMessageSize, this.answer := protocol, maxMessageSize, answer;
      parser := new FrameParser(maxMessageSize);
      incoming, fragments, fragmentOpcode := [], [], 0;
      accepted, closed, handshakeSent, connectSent, disconnected := false, false, false, false, false;
      received, finished := [], false;
    }

    // -- fed by the connection ----------------------------------------------

    method FeedData(data: bytes)
      requires Valid()
      modifies this, parser, protocol
      ensures State() == WsSpec.FeedData(old(State()), data)
    {
      hide NextFrame, WsSpec.HandleFrame, WsSpec.Fail, WsSpec.PauseReading;
      parser.FeedData(data);
      ghost var all := FeedLoop(State());
      while true
        invariant all == FeedLoop(State())
        decreases |parser.buffer|
      {
        FrameShortens(parser.buffer, maxMessageSize);
        var r := parser.Next();
        match r
        case Nothing => return;
        case Violation(e) =>
          Fail(e.Code(), e.Reason());
          return;
        case AFrame(f) =>
          var error := HandleFrame(f);
          if error.Some? {
            Fail(error.value.Code(), error.value.Reason());
            return;
          }
          if closed {
            return;
          }
          if |incoming| >= PAUSE_READING_AT {
            protocol.PauseReading();
          }
      }
    }

    method OnDisconnect(code: int)
      modifies this
      ensures State() == WsSpec.OnDisconnect(old(State()), code)
    {
      if disconnected {
        return;
      }
      disconnected, closed := true, true;
      incoming := incoming + [Disconnect(code)];
    }

    /** The violation it returns stands for the exception that `_handle_frame` raises. */
    method HandleFrame(f: Frame) returns (error: Option<WsError>)
      modifies this, protocol
      ensures match WsSpec.HandleFrame(old(State()), f)
              case Fine(next) => error == None && State() == next
              case Violated(next, e) => error == Some(e) && State() == next
    {
      if f.IsControl() {
        error := HandleControl(f);
        return;
      }
      hide MessageFor;
      if f.opcode == OP_CONTINUATION {
        if fragmentOpcode == 0 {
          return Some(NothingToContinue);
        }
      } else {
        if fragmentOpcode != 0 {
          return Some(MessageInterrupted);
        }
        fragmentOpcode := f.opcode;
      }
      fragments := fragments + f.payload;
      if |fragments| > maxMessageSize {
        return Some(MessageTooLarge);
      }
      if !f.fin {
        return None;
      }
      var payload, opcode := fragments, fragmentOpcode;
      fragments, fragmentOpcode := [], 0;
      var m := MessageFor(opcode, payload);
      if m.None? {
        return Some(TextNotUtf8);
      }
      incoming := incoming + [m.value];
      return None;
    }

    method HandleControl(f: Frame) returns (error: Option<WsError>)
      modifies this, protocol
      ensures match WsSpec.HandleControl(old(State()), f)
              case Fine(next) => error == None && State() == next
              case Violated(next, e) => error == Some(e) && State() == next
    {
      hide ParseClose, WsSpec.EchoClose;
      if f.opcode == OP_PING {
        protocol.Write(FrameWrite(OP_PONG, f.payload));
        return None;
      }
      if f.opcode == OP_PONG {
        return None;
      }
      match ParseClose(f.payload)
      case BadClose(e) => return Some(e);
      case GoodClose(code, reason) =>
        EchoClose(code, reason);
        return None;
    }

    method EchoClose(code: int, reason: bytes)
      modifies this, protocol
      ensures State() == WsSpec.EchoClose(old(State()), code, reason)
    {
      if !closed {
        closed := true;
        var payload := ClosePayload(if code == CLOSE_NO_STATUS then CLOSE_NORMAL else code, reason);
        protocol.Write(FrameWrite(OP_CLOSE, if payload.Some? then payload.value else []));
      }
      incoming := incoming + [Disconnect(code)];
      disconnected := true;
      protocol.Close();
    }

    method Fail(code: nat, reason: bytes)
      modifies this, protocol
      ensures State() == WsSpec.Fail(old(State()), code, reason)
    {
      if !closed {
        closed := true;
        var payload := ClosePayload(code, reason);
        protocol.Write(FrameWrite(OP_CLOSE, if payload.Some? then payload.value else []));
      }
      OnDisconnect(code);
      protocol.Close();
    }

    // -- the application's side -----------------------------------------------

    /** After the application returned, or raised. */
    method FinishRun(raised: bool)
      modifies this, protocol
      ensures State() == Finish(old(State()), raised)
    {
      hide WsSpec.Fail;
      if raised && !closed {
        Fail(CLOSE_INTERNAL_ERROR, Ascii("internal error"));
      }
      if !handshakeSent {
        protocol.Write(HttpAnswer(Forbidden));
      }
      protocol.Close();
      finished := true;
    }

    /** The next message; called when `receive` does not have to wait for one. */
    method Receive() returns (m: Message)
      requires !ReceiveWaits(State())
      modifies this, protocol
      ensures State() == WsSpec.Receive(old(State()))
      ensures m == if old(connectSent) then old(incoming)[0] else Connect
      ensures old(connectSent) ==> received == old(received) + [m] && [m] + incoming == old(incoming)
    {
      if !connectSent {
        connectSent := true;
        return Connect;
      }
      m := incoming[0];
      incoming, received := incoming[1..], received + [m];
      if |incoming| <= RESUME_READING_AT {
        protocol.ResumeReading();
      }
    }

    /** `ok` is false where `send` raises. */
    method Accept() returns (ok: bool)
      modifies this, protocol
      ensures ok <==> !old(handshakeSent)
      ensures State() == WsSpec.Accept(old(State()))
    {
      if handshakeSent {
        return false;
      }
      protocol.Write(HttpAnswer(answer));
      handshakeSent, accepted := true, true;
      return true;
    }

    method SendPayload(opcode: Opcode, payload: bytes) returns (ok: bool)
      modifies protocol
      ensures ok <==> accepted
      ensures State() == Send(old(State()), opcode, payload)
    {
      if !accepted {
        return false;
      }
      if closed {
        return true;
      }
      protocol.Write(FrameWrite(opcode, payload));
      return true;
    }

    method CloseByApplication(code: int, reason: bytes) returns (ok: bool)
      modifies this, protocol
      ensures ok <==> old(!handshakeSent || closed) || ClosePayload(code, reason).Some?
      ensures State() == AppClose(old(State()), code, reason)
    {
      if !handshakeSent {
        protocol.Write(HttpAnswer(Forbidden));
        handshakeSent, closed := true, true;
        protocol.Close();
        return true;
      }
      if closed {
        return true;
      }
      closed := true;
      var payload := ClosePayload(code, reason);
      if payload.None? {
        return false;
      }
      protocol.Write(FrameWrite(OP_CLOSE, payload.value));
      protocol.Close();
      return true;
    }
  }
}
