/** WebSocket frames (section 5.2 of RFC 6455): the printer, the incremental parser,
    and the mask applied as one exclusive or of two big integers. */
module WsFrames {
  import opened Bytes

  // -- big-endian integers ---------------------------------------------------

  /** `int.from_bytes(s, "big")` */
  function FromBytes(s: bytes): nat {
    if s == [] then 0 else FromBytes(s[..|s| - 1]) * 256 + s[|s| - 1]
  }

  /** `n.to_bytes(length, "big")`; the value is reduced where Python would overflow. */
  function ToBytes(n: nat, length: nat): (r: bytes)
    ensures |r| == length
  {
    if length == 0 then [] else ToBytes(n / 256, length - 1) + [n % 256]
  }

  lemma {:induction false} FromToBytes(n: nat, length: nat)
    requires n < Power(256, length)
    ensures FromBytes(ToBytes(n, length)) == n
  {
    if length > 0 {
      assert Power(256, length) == 256 * Power(256, length - 1);
      FromToBytes(n / 256, length - 1);
      var s := ToBytes(n, length);
      assert s[..length - 1] == ToBytes(n / 256, length - 1);
    }
  }

  lemma {:induction false} ToFromBytes(s: bytes)
    ensures ToBytes(FromBytes(s), |s|) == s
  {
    if s != [] {
      var front := s[..|s| - 1];
      ToFromBytes(front);
      assert s == front + [s[|s| - 1]];
    }
  }

  // -- exclusive or -------------------------------------------------------------

  /** `a ^ b`, bit by bit from the lowest. */
  function Xor(a: nat, b: nat): nat
    decreases a + b
  {
    if a == 0 && b == 0 then 0 else (if a % 2 == b % 2 then 0 else 1) + 2 * Xor(a / 2, b / 2)
  }

  lemma {:induction false} XorTwice(a: nat, b: nat)
    ensures Xor(Xor(a, b), b) == a
    decreases a + b
  {
    if a != 0 || b != 0 {
      XorTwice(a / 2, b / 2);
      var x := Xor(a, b);
      assert x / 2 == Xor(a / 2, b / 2);
    } 
  }

  /** The low bits and the high bits do not meet. */
  lemma {:induction false} XorSplits(k: nat, a: nat, x: nat, b: nat, y: nat)
    requires x < Power(2, k) && y < Power(2, k)
    ensures Xor(a * Power(2, k) + x, b * Power(2, k) + y) == Xor(a, b) * Power(2, k) + Xor(x, y)
    ensures Xor(x, y) < Power(2, k)
    decreases k
  {
    PowerIs(k);
    XorOfZeros();
    hide Xor, Power;
    if k > 0 {
      var p, h := Power(2, k), Power(2, k - 1);
      HalfBelow(x, p, h);
      HalfBelow(y, p, h);
      XorSplits(k - 1, a, x / 2, b, y / 2);
      XorShifted(p, h, a, x, b, y);
    }
  }

  lemma PowerIs(k: nat)
    ensures Power(2, k) == if k == 0 then 1 else 2 * Power(2, k - 1)
  {
  }

  lemma XorOfZeros()
    ensures Xor(0, 0) == 0
  {
  }

  lemma HalfBelow(x: nat, p: nat, h: nat)
    requires p == 2 * h && x < p
    ensures x / 2 < h
  {
  }

  lemma XorShifted(p: nat, h: nat, a: nat, x: nat, b: nat, y: nat)
    requires p == 2 * h
    requires Xor(a * h + x / 2, b * h + y / 2) == Xor(a, b) * h + Xor(x / 2, y / 2)
    requires Xor(x / 2, y / 2) < h
    ensures Xor(a * p + x, b * p + y) == Xor(a, b) * p + Xor(x, y)
    ensures Xor(x, y) < p
  {
    hide Xor;
    HalfOfShifted(p, a, x, h);
    HalfOfShifted(p, b, y, h);
    XorStep(a * p + x, b * p + y);
    XorStep(x, y);
    DoubleShift(p, Xor(a, b), h, Xor(x / 2, y / 2));
  }

  lemma HalfOfShifted(p: nat, a: nat, x: nat, h: nat)
    requires p == 2 * h
    ensures (a * p + x) / 2 == a * h + x / 2
    ensures (a * p + x) % 2 == x % 2
  {
    assert a * p == 2 * (a * h);
  }

  lemma DoubleShift(p: nat, c: nat, h: nat, z: nat)
    requires p == 2 * h
    ensures 2 * (c * h + z) == c * p + 2 * z
  {
  }

  lemma XorStep(a: nat, b: nat)
    ensures Xor(a, b) == (if a % 2 == b % 2 then 0 else 1) + 2 * Xor(a / 2, b / 2)
  {
  }

  function XorByte(x: byte, y: byte): byte {
    assert Power(2, 8) == 256 by { PowerOfTwo8(); }
    XorSplits(8, 0, x, 0, y);
    Xor(x, y)
  }

  lemma PowerOfTwo8()
    ensures Power(2, 8) == 256
  {
    assert Power(2, 4) == 16;
    assert Power(2, 8) == 16 * Power(2, 4);
  }

  /** Byte by byte. */
  function XorBytes(s: bytes, t: bytes): (r: bytes)
    requires |s| == |t|
    ensures |r| == |s|
  {
    seq(|s|, i requires 0 <= i < |s| => XorByte(s[i], t[i]))
  }

  lemma {:induction false} XorOfBytes(s: bytes, t: bytes)
    requires |s| == |t|
    ensures Xor(FromBytes(s), FromBytes(t)) == FromBytes(XorBytes(s, t))
  {
    if s != [] {
      var n := |s| - 1;
      XorOfBytes(s[..n], t[..n]);
      PowerOfTwo8();
      XorSplits(8, FromBytes(s[..n]), s[n], FromBytes(t[..n]), t[n]);
      assert XorBytes(s, t)[..n] == XorBytes(s[..n], t[..n]);
    }
  }

  // -- the mask -------------------------------------------------------------------

  function Repeat(s: bytes, times: nat): (r: bytes)
    requires |s| == 4
    ensures |r| == times * 4
  {
    if times == 0 then [] else s + Repeat(s, times - 1)
  }

  lemma {:induction false} RepeatAt(s: bytes, times: nat, i: nat)
    requires |s| == 4 && i < times * 4
    ensures Repeat(s, times)[i] == s[i % 4]
    decreases times
  {
    if i >= 4 {
      RepeatAt(s, times - 1, i - 4);
    }
  }

  /** The payload with the repeating mask removed, or applied. */
  function Unmask(payload: bytes, mask: bytes): bytes
    requires |mask| == 4
  {
    if payload == [] then payload
    else
      var repeated := Repeat(mask, |payload| / 4 + 1)[..|payload|];
      ToBytes(Xor(FromBytes(payload), FromBytes(repeated)), |payload|)
  }

  /** One pass over two integers is the loop over the bytes of section 5.3. */
  lemma UnmaskIsBytewise(payload: bytes, mask: bytes)
    requires |mask| == 4
    ensures var r := Unmask(payload, mask);
            |r| == |payload| && forall i :: 0 <= i < |payload| ==> r[i] == XorByte(payload[i], mask[i % 4])
  {
    hide Xor, XorByte, FromBytes, ToBytes, Repeat;
    if payload != [] {
      var times := |payload| / 4 + 1;
      var repeated := Repeat(mask, times)[..|payload|];
      XorOfBytes(payload, repeated);
      ToFromBytes(XorBytes(payload, repeated));
      forall i | 0 <= i < |payload| ensures repeated[i] == mask[i % 4] {
        RepeatAt(mask, times, i);
      }
    }
  }

  lemma UnmaskTwice(payload: bytes, mask: bytes)
    requires |mask| == 4
    ensures Unmask(Unmask(payload, mask), mask) == payload
  {
    var once := Unmask(payload, mask);
    UnmaskIsBytewise(payload, mask);
    UnmaskIsBytewise(once, mask);
    forall i | 0 <= i < |payload| ensures Unmask(once, mask)[i] == payload[i] {
      XorTwice(payload[i], mask[i % 4]);
    }
  }

  // -- frames ------------------------------------------------------------------

  const OP_CONTINUATION: nat := 0
  const OP_TEXT: nat := 1
  const OP_BINARY: nat := 2
  const OP_CLOSE: nat := 8
  const OP_PING: nat := 9
  const OP_PONG: nat := 10

  const MAX_CONTROL_PAYLOAD: nat := 125

  type Opcode = n: nat | n < 16

  datatype Frame = Frame(fin: bool, opcode: Opcode, payload: bytes) {
    predicate IsControl() { IsControlOpcode(opcode) }
  }

  predicate IsControlOpcode(opcode: nat) { opcode == OP_CLOSE || opcode == OP_PING || opcode == OP_PONG }

  predicate IsDataOpcode(opcode: nat) { opcode == OP_CONTINUATION || opcode == OP_TEXT || opcode == OP_BINARY }

  /** Every way a peer can break the rules, with the close code it is answered with. */
  datatype WsError =
    | ReservedBits | LengthTopBit | NotMasked | UnknownOpcode(opcode: nat) | ControlTooLong | ControlFragmented
    | FrameTooLarge | NothingToContinue | MessageInterrupted | MessageTooLarge
    | TextNotUtf8 | CloseOneByte | CloseCodeInvalid(code: nat) | CloseReasonNotUtf8
  {
    function Reason(): bytes {
      match this
      case ReservedBits => Ascii("reserved bits must be zero")
      case LengthTopBit => Ascii("the top bit of a 64-bit length must be zero")
      case NotMasked => Ascii("frames from a client must be masked")
      case UnknownOpcode(opcode) => Ascii("unknown opcode 0x") + Numeral(opcode, 16)
      case ControlTooLong => Ascii("a control frame cannot carry more than 125 bytes")
      case ControlFragmented => Ascii("a control frame cannot be fragmented")
      case FrameTooLarge => Ascii("the frame is too large")
      case NothingToContinue => Ascii("a continuation frame with nothing to continue")
      case MessageInterrupted => Ascii("a new message started before the last one finished")
      case MessageTooLarge => Ascii("the message is too large")
      case TextNotUtf8 => Ascii("a text message must be valid UTF-8")
      case CloseOneByte => Ascii("a close payload of one byte is malformed")
      case CloseCodeInvalid(code) => Ascii("close code ") + Numeral(code, 10) + Ascii(" is not allowed on the wire")
      case CloseReasonNotUtf8 => Ascii("the close reason is not UTF-8")
    }

    function Code(): nat {
      match this
      case FrameTooLarge => 1009
      case MessageTooLarge => 1009
      case TextNotUtf8 => 1007
      case CloseReasonNotUtf8 => 1007
      case _ => 1002
    }
  }

  datatype FrameRead = NoFrame | GotFrame(frame: Frame, rest: bytes) | BadFrame(error: WsError)

  datatype LengthRead = ShortLength | BadLength | GotLength(length: nat, offset: nat)

  /** The payload length in its one, two or eight byte encoding. */
  function ReadLength(buffer: bytes): (r: LengthRead)
    requires |buffer| >= 2
    ensures r.GotLength? ==> 2 <= r.offset <= |buffer|
  {
    var length := buffer[1] % 128;
    if length == 126 then
      if |buffer| < 4 then ShortLength else GotLength(FromBytes(buffer[2..4]), 4)
    else if length == 127 then
      if |buffer| < 10 then ShortLength
      else if FromBytes(buffer[2..10]) >= 0x8000_0000_0000_0000 then BadLength
      else GotLength(FromBytes(buffer[2..10]), 10)
    else GotLength(length, 2)
  }

  function CheckFrame(opcode: nat, length: nat, masked: bool, fin: bool, maxSize: nat): Option<WsError> {
    if !masked then Some(NotMasked)
    else if !IsDataOpcode(opcode) && !IsControlOpcode(opcode) then Some(UnknownOpcode(opcode))
    else if IsControlOpcode(opcode) then
      if length > MAX_CONTROL_PAYLOAD then Some(ControlTooLong)
      else if !fin then Some(ControlFragmented)
      else None
    else if length > maxSize then Some(FrameTooLarge)
    else None
  }

  /** One `next_frame`: the next whole frame, nothing while one is still arriving, or
      the violation as soon as the header shows it. */
  function NextFrame(buffer: bytes, maxSize: nat): FrameRead {
    if |buffer| < 2 then NoFrame
    else if (buffer[0] / 16) % 8 != 0 then BadFrame(ReservedBits)
    else
      match ReadLength(buffer)
      case ShortLength => NoFrame
      case BadLength => BadFrame(LengthTopBit)
      case GotLength(length, offset) =>
        var fin, opcode, masked := buffer[0] >= 128, buffer[0] % 16, buffer[1] >= 128;
        match CheckFrame(opcode, length, masked, fin, maxSize)
        case Some(e) => BadFrame(e)
        case None =>
          if |buffer| < offset + 4 + length then NoFrame
          else
            var mask, body := buffer[offset..offset + 4], offset + 4;
            GotFrame(Frame(fin, opcode, Unmask(buffer[body..body + length], mask)), buffer[body + length..])
  }

  // -- the printer --------------------------------------------------------------

  function FrameHead(opcode: Opcode, length: nat, fin: bool, masked: bool): bytes
    requires length < 0x1_0000_0000_0000_0000
  {
    var first, flag := (if fin then 128 else 0) + opcode, if masked then 128 else 0;
    if length < 126 then [first, flag + length]
    else if length < 0x1_0000 then [first, flag + 126] + ToBytes(length, 2)
    else [first, flag + 127] + ToBytes(length, 8)
  }

  /** What the server sends: never masked. */
  function BuildFrame(opcode: Opcode, payload: bytes, fin: bool): bytes
    requires |payload| < 0x1_0000_0000_0000_0000
  {
    FrameHead(opcode, |payload|, fin, false) + payload
  }

  /** What a client sends: the mask bit, the mask, and the payload under it. */
  function ClientFrame(f: Frame, mask: bytes): bytes
    requires |mask| == 4 && |f.payload| < 0x1_0000_0000_0000_0000
  {
    FrameHead(f.opcode, |f.payload|, f.fin, true) + mask + Unmask(f.payload, mask)
  }

  predicate Legal(f: Frame, maxSize: nat) {
    && |f.payload| < 0x8000_0000_0000_0000
    && (IsDataOpcode(f.opcode) || IsControlOpcode(f.opcode))
    && (if f.IsControl() then f.fin && |f.payload| <= MAX_CONTROL_PAYLOAD else |f.payload| <= maxSize)
  }

  lemma PowersOf256()
    ensures Power(256, 2) == 0x1_0000 && Power(256, 8) == 0x1_0000_0000_0000_0000
  {
    assert Power(256, 2) == 256 * Power(256, 1);
    assert Power(256, 4) == 256 * 256 * Power(256, 2);
    assert Power(256, 6) == 256 * 256 * Power(256, 4);
    assert Power(256, 8) == 256 * 256 * Power(256, 6);
  }

  lemma ReadsItsLength(f: Opcode, length: nat, fin: bool, rest: bytes)
    requires length < 0x8000_0000_0000_0000
    ensures var head := FrameHead(f, length, fin, true);
            && ReadLength(head + rest) == GotLength(length, |head|)
            && head[0] == (if fin then 128 else 0) + f && head[1] >= 128
  {
    PowersOf256();
    hide Power, FromBytes, ToBytes;
    var head := FrameHead(f, length, fin, true);
    var b := head + rest;
    if length < 126 {
      assert head == [head[0], head[1]];
    } else if length < 0x1_0000 {
      FromToBytes(length, 2);
      assert b[2..4] == ToBytes(length, 2);
    } else {
      FromToBytes(length, 8);
      assert b[2..10] == ToBytes(length, 8);
    }
  }

  lemma LegalPassesCheck(f: Frame, maxSize: nat)
    requires Legal(f, maxSize)
    ensures CheckFrame(f.opcode, |f.payload|, true, f.fin, maxSize) == None
  {
  }

  lemma PartsAreRead(f: Frame, head: bytes, mask: bytes, masked: bytes, rest: bytes, maxSize: nat)
    requires |mask| == 4 && |masked| == |f.payload| && |head| >= 2
    requires ReadLength(head + (mask + masked + rest)) == GotLength(|masked|, |head|)
    requires head[0] == (if f.fin then 128 else 0) + f.opcode && head[1] >= 128
    requires CheckFrame(f.opcode, |masked|, true, f.fin, maxSize) == None
    ensures NextFrame(head + (mask + masked + rest), maxSize) ==
            GotFrame(Frame(f.fin, f.opcode, Unmask(masked, mask)), rest)
  {
    hide ReadLength, Unmask, CheckFrame;
    var b := head + (mask + masked + rest);
    assert b[|head|..|head| + 4] == mask;
    assert b[|head| + 4..|head| + 4 + |masked|] == masked;
    assert b[|head| + 4 + |masked|..] == rest;
  }

  /** What a client prints, `next_frame` reads back, in all three length encodings,
      taking exactly the bytes of the frame. */
  lemma FrameRoundTrip(f: Frame, mask: bytes, rest: bytes, maxSize: nat)
    requires |mask| == 4 && Legal(f, maxSize)
    ensures NextFrame(ClientFrame(f, mask) + rest, maxSize) == GotFrame(f, rest)
  {
    hide NextFrame, ReadLength, Unmask, FrameHead, CheckFrame;
    var head, masked := FrameHead(f.opcode, |f.payload|, f.fin, true), Unmask(f.payload, mask);
    UnmaskIsBytewise(f.payload, mask);
    ReadsItsLength(f.opcode, |f.payload|, f.fin, mask + masked + rest);
    LegalPassesCheck(f, maxSize);
    PartsAreRead(f, head, mask, masked, rest, maxSize);
    UnmaskTwice(f.payload, mask);
    assert ClientFrame(f, mask) + rest == head + (mask + masked + rest);
  }

  /** More bytes behind the buffer change neither a frame nor a violation. */
  lemma FrameExtends(buffer: bytes, x: bytes, maxSize: nat)
    ensures match NextFrame(buffer, maxSize)
            case GotFrame(f, rest) => NextFrame(buffer + x, maxSize) == GotFrame(f, rest + x)
            case BadFrame(e) => NextFrame(buffer + x, maxSize) == BadFrame(e)
            case NoFrame => true
  {
    hide Unmask;
    if |buffer| >= 2 {
      LengthExtends(buffer, x);
      hide ReadLength;
      match ReadLength(buffer)
      case GotLength(length, offset) =>
        var body := offset + 4;
        if |buffer| >= body + length {
          var b := buffer + x;
          assert b[offset..body] == buffer[offset..body];
          assert b[body..body + length] == buffer[body..body + length];
          assert b[body + length..] == buffer[body + length..] + x;
        }
      case _ =>
    }
  }

  lemma LengthExtends(buffer: bytes, x: bytes)
    requires |buffer| >= 2
    ensures !ReadLength(buffer).ShortLength? ==> ReadLength(buffer + x) == ReadLength(buffer)
  {
    var b := buffer + x;
    assert |buffer| >= 4 ==> b[2..4] == buffer[2..4];
    assert |buffer| >= 10 ==> b[2..10] == buffer[2..10];
  }

  /** No strict prefix of a frame is a frame, or a violation. */
  lemma PrefixIsNoFrame(f: Frame, mask: bytes, n: nat, maxSize: nat)
    requires |mask| == 4 && Legal(f, maxSize) && n < |ClientFrame(f, mask)|
    ensures NextFrame(ClientFrame(f, mask)[..n], maxSize) == NoFrame
  {
    hide NextFrame, ClientFrame;
    var whole := ClientFrame(f, mask);
    var front, back := whole[..n], whole[n..];
    assert front + back == whole && whole + [] == whole;
    FrameRoundTrip(f, mask, [], maxSize);
    FrameExtends(front, back, maxSize);
  }

  // -- draining, in any number of pieces ---------------------------------------------

  datatype Frames = Frames(frames: seq<Frame>, rest: bytes, error: Option<WsError>)

  lemma FrameShortens(buffer: bytes, maxSize: nat)
    ensures NextFrame(buffer, maxSize).GotFrame? ==> |NextFrame(buffer, maxSize).rest| < |buffer|
  {
    hide Unmask;
  }

  function DrainFrames(buffer: bytes, maxSize: nat): Frames
    decreases |buffer|
  {
    FrameShortens(buffer, maxSize);
    match NextFrame(buffer, maxSize)
    case NoFrame => Frames([], buffer, None)
    case BadFrame(e) => Frames([], buffer, Some(e))
    case GotFrame(f, rest) =>
      var more := DrainFrames(rest, maxSize);
      Frames([f] + more.frames, more.rest, more.error)
  }

  function DrainFramePieces(buffer: bytes, pieces: seq<bytes>, maxSize: nat): Frames
    decreases |pieces|
  {
    if pieces == [] then Frames([], buffer, None)
    else
      var first := DrainFrames(buffer + pieces[0], maxSize);
      if first.error.Some? then first
      else
        var more := DrainFramePieces(first.rest, pieces[1..], maxSize);
        Frames(first.frames + more.frames, more.rest, more.error)
  }

  lemma {:induction false} DrainFramesTwoGoes(buffer: bytes, x: bytes, maxSize: nat)
    ensures var whole, first := DrainFrames(buffer + x, maxSize), DrainFrames(buffer, maxSize);
            if first.error.Some? then whole.frames == first.frames && whole.error == first.error
            else
              var second := DrainFrames(first.rest + x, maxSize);
              whole == Frames(first.frames + second.frames, second.rest, second.error)
    decreases |buffer|
  {
    FrameExtends(buffer, x, maxSize);
    FrameShortens(buffer, maxSize);
    hide NextFrame;
    match NextFrame(buffer, maxSize)
    case GotFrame(f, rest) =>
      DrainFramesTwoGoes(rest, x, maxSize);
      var first := DrainFrames(rest, maxSize);
      if first.error.None? {
        var second := DrainFrames(first.rest + x, maxSize);
        assert [f] + (first.frames + second.frames) == [f] + first.frames + second.frames;
      }
    case NoFrame =>
      var whole := DrainFrames(buffer + x, maxSize);
      assert [] + whole.frames == whole.frames;
    case BadFrame(_) =>
  }

  lemma {:induction false} DrainedIsQuiet(buffer: bytes, maxSize: nat)
    requires DrainFrames(buffer, maxSize).error.None?
    ensures NextFrame(DrainFrames(buffer, maxSize).rest, maxSize) == NoFrame
    decreases |buffer|
  {
    FrameShortens(buffer, maxSize);
    hide NextFrame;
    if NextFrame(buffer, maxSize).GotFrame? {
      DrainedIsQuiet(NextFrame(buffer, maxSize).rest, maxSize);
    }
  }

  /** Split independence, for every byte stream: the frames, and the violation that
      ends them if there is one, do not depend on the cut. */
  lemma {:induction false} FramePiecesAsOne(buffer: bytes, pieces: seq<bytes>, maxSize: nat)
    requires NextFrame(buffer, maxSize) == NoFrame
    ensures var cut, whole := DrainFramePieces(buffer, pieces, maxSize), DrainFrames(buffer + Concat(pieces), maxSize);
            && cut.frames == whole.frames && cut.error == whole.error
            && (cut.error.None? ==> cut.rest == whole.rest)
    decreases |pieces|
  {
    hide NextFrame;
    if pieces == [] {
      assert buffer + [] == buffer;
    } else {
      var fed, tail := buffer + pieces[0], Concat(pieces[1..]);
      assert fed + tail == buffer + Concat(pieces);
      DrainFramesTwoGoes(fed, tail, maxSize);
      if DrainFrames(fed, maxSize).error.None? {
        DrainedIsQuiet(fed, maxSize);
        FramePiecesAsOne(DrainFrames(fed, maxSize).rest, pieces[1..], maxSize);
      }
    }
  }

  function ClientStream(fs: seq<Frame>, masks: seq<bytes>): bytes
    requires |masks| == |fs| && (forall i :: 0 <= i < |fs| ==> |masks[i]| == 4 && |fs[i].payload| < 0x8000_0000_0000_0000)
  {
    if fs == [] then [] else ClientFrame(fs[0], masks[0]) + ClientStream(fs[1..], masks[1..])
  }

  ghost predicate AllLegal(fs: seq<Frame>, masks: seq<bytes>, maxSize: nat) {
    |masks| == |fs| && forall i :: 0 <= i < |fs| ==> |masks[i]| == 4 && Legal(fs[i], maxSize)
  }

  lemma {:induction false} StreamRoundTrip(fs: seq<Frame>, masks: seq<bytes>, maxSize: nat)
    requires AllLegal(fs, masks, maxSize)
    ensures DrainFrames(ClientStream(fs, masks), maxSize) == Frames(fs, [], None)
  {
    hide NextFrame, ClientFrame;
    if fs == [] {
      assert NextFrame([], maxSize) == NoFrame by { EmptyIsNoFrame(maxSize); }
    } else {
      FrameRoundTrip(fs[0], masks[0], ClientStream(fs[1..], masks[1..]), maxSize);
      StreamRoundTrip(fs[1..], masks[1..], maxSize);
      assert fs == [fs[0]] + fs[1..];
    }
  }

  lemma EmptyIsNoFrame(maxSize: nat)
    ensures NextFrame([], maxSize) == NoFrame
  {
  }

  /** Any sequence of legal frames, masked by a client and cut into any pieces, is
      read back as exactly that sequence with nothing left over. */
  lemma FramesSurviveAnyCut(fs: seq<Frame>, masks: seq<bytes>, cut: seq<bytes>, maxSize: nat)
    requires AllLegal(fs, masks, maxSize) && Concat(cut) == ClientStream(fs, masks)
    ensures DrainFramePieces([], cut, maxSize) == Frames(fs, [], None)
  {
    hide NextFrame;
    EmptyIsNoFrame(maxSize);
    StreamRoundTrip(fs, masks, maxSize);
    FramePiecesAsOne([], cut, maxSize);
    assert [] + Concat(cut) == Concat(cut);
  }

  // -- the parser object -------------------------------------------------------------

  datatype FrameAnswer = Nothing | AFrame(frame: Frame) | Violation(error: WsError)

  /** Bytes in, frames out, over one buffer that is cut in place. */
  class FrameParser {
    var buffer: bytes
    const maxFrameSize: nat

    constructor (maxFrameSize: nat)
      ensures this.maxFrameSize == maxFrameSize && buffer == []
    {
      this.maxFrameSize := maxFrameSize;
      buffer := [];
    }

    method FeedData(data: bytes)
      modifies this
      ensures buffer == old(buffer) + data
    {
      buffer := buffer + data;
    }

    method Next() returns (r: FrameAnswer)
      modifies this
      ensures match NextFrame(old(buffer), maxFrameSize)
              case NoFrame => r == Nothing && buffer == old(buffer)
              case BadFrame(e) => r == Violation(e) && buffer == old(buffer)
              case GotFrame(f, rest) => r == AFrame(f) && buffer == rest
    {
      hide Unmask;
      if |buffer| < 2 {
        return Nothing;
      }
      var first, second := buffer[0], buffer[1];
      var fin := first >= 128;
      if (first / 16) % 8 != 0 {
        return Violation(ReservedBits);
      }
      var opcode, masked, length, offset := first % 16, second >= 128, second % 128, 2;
      if length == 126 {
        if |buffer| < offset + 2 {
          return Nothing;
        }
        length, offset := FromBytes(buffer[offset..offset + 2]), 4;
      } else if length == 127 {
        if |buffer| < offset + 8 {
          return Nothing;
        }
        length := FromBytes(buffer[offset..offset + 8]);
        if length >= 0x8000_0000_0000_0000 {
          return Violation(LengthTopBit);
        }
        offset := 10;
      }
      assert ReadLength(buffer) == GotLength(length, offset);
      hide ReadLength;
      var wrong := CheckFrame(opcode, length, masked, fin, maxFrameSize);
      if wrong.Some? {
        return Violation(wrong.value);
      }
      if |buffer| < offset + 4 {
        return Nothing;
      }
      var mask := buffer[offset..offset + 4];
      offset := offset + 4;
      if |buffer| < offset + length {
        return Nothing;
      }
      var payload := buffer[offset..offset + length];
      buffer := buffer[offset + length..];
      return AFrame(Frame(fin, opcode, Unmask(payload, mask)));
    }
  }
}
