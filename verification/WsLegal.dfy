/** Which bytes are frames, which texts are UTF-8, and when reading pauses: exactly. */
module WsLegal {
  import opened Bytes
  import opened WsFrames
  import opened WsSpec
  import opened WsSafety
  import opened WsReassembly

  // -- frames ----------------------------------------------------------------------------------

  /** A length may be written in two, four or ten bytes of head, wherever it fits. */
  datatype Width = InTwo | InFour | InTen

  predicate FitsIn(n: nat, width: Width) {
    match width
    case InTwo => n < 126
    case InFour => n < 0x1_0000
    case InTen => n < 0x8000_0000_0000_0000
  }

  /** The frame of a client: first byte, mask bit and length, mask, and the payload
      under the mask. */
  function Written(f: Frame, mask: bytes, width: Width): bytes
    requires |mask| == 4 && FitsIn(|f.payload|, width)
  {
    var first, n := (if f.fin then 128 else 0) + f.opcode, |f.payload|;
    (match width
     case InTwo => [first, 128 + n]
     case InFour => [first, 254] + ToBytes(n, 2)
     case InTen => [first, 255] + ToBytes(n, 8))
    + mask + Unmask(f.payload, mask)
  }

  /** The bytes begin with this frame, and then there is this. */
  ghost predicate IsWrittenAs(buffer: bytes, f: Frame, rest: bytes) {
    exists mask, width :: |mask| == 4 && FitsIn(|f.payload|, width) && buffer == Written(f, mask, width) + rest
  }

  lemma {:induction false} FromBytesFits(s: bytes)
    ensures FromBytes(s) < Power(256, |s|)
    decreases |s|
  {
    if s != [] { FromBytesFits(s[..|s| - 1]); }
  }

  /** The head of a frame tells a length in one of the three widths. */
  predicate HeadTells(head: bytes, n: nat, width: Width) {
    && |head| >= 2 && FitsIn(n, width)
    && match width
       case InTwo => |head| == 2 && head[1] % 128 == n
       case InFour => |head| == 4 && head[1] % 128 == 126 && head[2..] == ToBytes(n, 2)
       case InTen => |head| == 10 && head[1] % 128 == 127 && head[2..] == ToBytes(n, 8)
  }

  lemma LengthIff(buffer: bytes, n: nat, k: nat)
    requires 2 <= k <= |buffer|
    ensures ReadLength(buffer) == GotLength(n, k) <==> exists width :: HeadTells(buffer[..k], n, width)
  {
    PowersOf256();
    var head := buffer[..k];
    assert head[1] == buffer[1];
    if |buffer| >= 4 {
      ToFromBytes(buffer[2..4]);
      FromBytesFits(buffer[2..4]);
      assert k == 4 ==> head[2..] == buffer[2..4];
    }
    if |buffer| >= 10 {
      ToFromBytes(buffer[2..10]);
      FromBytesFits(buffer[2..10]);
      assert k == 10 ==> head[2..] == buffer[2..10];
    }
    if ReadLength(buffer) == GotLength(n, k) {
      assert HeadTells(head, n, if k == 2 then InTwo else if k == 4 then InFour else InTen);
    }
    forall width | HeadTells(head, n, width) ensures ReadLength(buffer) == GotLength(n, k) {
      if width == InFour { FromToBytes(n, 2); }
      if width == InTen { FromToBytes(n, 8); }
    }
  }

  lemma HeadIs(f: Frame, head: bytes, width: Width)
    requires HeadTells(head, |f.payload|, width) && head[0] == (if f.fin then 128 else 0) + f.opcode && head[1] >= 128
    ensures forall mask :: |mask| == 4 ==> Written(f, mask, width) == head + mask + Unmask(f.payload, mask)
  {
    assert head == [head[0], head[1]] + head[2..];
    hide ToBytes, Unmask;
  }

  /** Bytes begin with a frame that is taken if and only if they are written like one, its
      opcode is known, and its size allowed. */
  lemma FrameIff(buffer: bytes, f: Frame, rest: bytes, maxSize: nat)
    ensures NextFrame(buffer, maxSize) == GotFrame(f, rest) <==> Legal(f, maxSize) && IsWrittenAs(buffer, f, rest)
  {
    if NextFrame(buffer, maxSize) == GotFrame(f, rest) { GotIsWritten(buffer, f, rest, maxSize); }
    if Legal(f, maxSize) && IsWrittenAs(buffer, f, rest) {
      var mask, width :| |mask| == 4 && FitsIn(|f.payload|, width) && buffer == Written(f, mask, width) + rest;
      WrittenIsGot(f, mask, width, rest, maxSize);
    }
  }

  lemma GotIsWritten(buffer: bytes, f: Frame, rest: bytes, maxSize: nat)
    requires NextFrame(buffer, maxSize) == GotFrame(f, rest)
    ensures Legal(f, maxSize) && IsWrittenAs(buffer, f, rest)
  {
    hide ReadLength, Unmask, HeadTells, Written;
    var r := ReadLength(buffer);
    var n, k := r.length, r.offset;
    LengthIff(buffer, n, k);
    var width :| HeadTells(buffer[..k], n, width);
    var mask, masked := buffer[k..k + 4], buffer[k + 4..k + 4 + n];
    UnmaskIsBytewise(masked, mask);
    UnmaskTwice(masked, mask);
    assert buffer == buffer[..k] + mask + masked + rest;
    TellsFits(buffer[..k], n, width);
    HeadIs(f, buffer[..k], width);
  }

  lemma TellsFits(head: bytes, n: nat, width: Width)
    requires HeadTells(head, n, width)
    ensures FitsIn(n, width) && n < 0x8000_0000_0000_0000
  {
  }

  lemma WrittenIsGot(f: Frame, mask: bytes, width: Width, rest: bytes, maxSize: nat)
    requires Legal(f, maxSize) && |mask| == 4 && FitsIn(|f.payload|, width)
    ensures NextFrame(Written(f, mask, width) + rest, maxSize) == GotFrame(f, rest)
  {
    var n := |f.payload|;
    var k := if width == InTwo then 2 else if width == InFour then 4 else 10;
    var whole, masked := Written(f, mask, width), Unmask(f.payload, mask);
    UnmaskIsBytewise(f.payload, mask);
    HeadStands(f, mask, width, k);
    hide ReadLength, Unmask, HeadTells, Written, CheckFrame, NextFrame;
    var head := whole[..k];
    Shifted(whole, head, mask, masked, rest);
    LengthIff(whole + rest, n, k);
    LegalPassesCheck(f, maxSize);
    PartsAreRead(f, head, mask, masked, rest, maxSize);
    UnmaskTwice(f.payload, mask);
  }

  lemma Shifted(whole: bytes, head: bytes, mask: bytes, masked: bytes, rest: bytes)
    requires whole == head + mask + masked
    ensures whole + rest == head + (mask + masked + rest) && (whole + rest)[..|head|] == head
  {
  }

  lemma HeadStands(f: Frame, mask: bytes, width: Width, k: nat)
    requires |mask| == 4 && FitsIn(|f.payload|, width) && k == if width == InTwo then 2 else if width == InFour then 4 else 10
    ensures var whole := Written(f, mask, width);
            && |whole| >= k && whole == whole[..k] + mask + Unmask(f.payload, mask)
            && HeadTells(whole[..k], |f.payload|, width)
            && whole[0] == (if f.fin then 128 else 0) + f.opcode && whole[1] >= 128
  {
    hide ToBytes, Unmask;
    var whole, n := Written(f, mask, width), |f.payload|;
    assert width == InFour ==> whole[..k][2..] == ToBytes(n, 2);
    assert width == InTen ==> whole[..k][2..] == ToBytes(n, 8);
  }

  /** A violation is answered with 1009 exactly where everything about the head but the
      size of the data is in order; every other one is a protocol error. */
  lemma ViolationCodeIs(buffer: bytes, maxSize: nat)
    ensures match NextFrame(buffer, maxSize)
            case BadFrame(e) =>
              && |buffer| >= 2
              && e.Code() == if (buffer[0] / 16) % 8 == 0 && buffer[1] >= 128 && IsDataOpcode(buffer[0] % 16)
                                && ReadLength(buffer).GotLength? then 1009 else 1002
            case _ => true
  {
    hide Unmask, ReadLength;
  }

  // -- UTF-8 (RFC 3629) --------------------------------------------------------------------------

  /** A Unicode scalar value. */
  predicate IsScalar(c: int) { 0 <= c < 0xD800 || 0xE000 <= c < 0x11_0000 }

  /** The bytes of one character (section 3 of RFC 3629). */
  function Encode(c: int): bytes
    requires IsScalar(c)
  {
    if c < 0x80 then [c]
    else if c < 0x800 then [0xC0 + c / 64, 0x80 + c % 64]
    else if c < 0x1_0000 then [0xE0 + c / 4096, 0x80 + c / 64 % 64, 0x80 + c % 64]
    else [0xF0 + c / 262144, 0x80 + c / 4096 % 64, 0x80 + c / 64 % 64, 0x80 + c % 64]
  }

  function EncodeAll(cs: seq<int>): bytes
    requires forall i :: 0 <= i < |cs| ==> IsScalar(cs[i])
  {
    if cs == [] then [] else Encode(cs[0]) + EncodeAll(cs[1..])
  }

  lemma EncodedIsRead(c: int, rest: bytes)
    requires IsScalar(c)
    ensures Utf8Length(Encode(c) + rest) == |Encode(c)| && |Encode(c)| > 0
  {
    if c < 0x80 {
    } else if c < 0x800 {
      TwoBytesOf(c);
    } else if c < 0x1_0000 {
      ThreeBytesOf(c);
    } else {
      FourBytesOf(c);
    }
  }

  lemma TwoBytesOf(c: int)
    requires 0x80 <= c < 0x800
    ensures 2 <= c / 64 < 32
  {
  }

  lemma ThreeBytesOf(c: int)
    requires 0x800 <= c < 0x1_0000 && IsScalar(c)
    ensures 0 <= c / 4096 < 16 && (c / 4096 == 0 ==> c / 64 % 64 >= 32) && (c / 4096 == 13 ==> c / 64 % 64 < 32)
  {
  }

  lemma FourBytesOf(c: int)
    requires 0x1_0000 <= c < 0x11_0000
    ensures 0 <= c / 262144 <= 4 && (c / 262144 == 0 ==> c / 4096 % 64 >= 16) && (c / 262144 == 4 ==> c / 4096 % 64 < 16)
  {
  }

  /** The character that a well-formed sequence stands for. */
  function Scalar(s: bytes): int
    requires Utf8Length(s) > 0
  {
    var n := Utf8Length(s);
    var a: int := s[0];
    var b: int := if n > 1 then s[1] else 0;
    var c: int := if n > 2 then s[2] else 0;
    var d: int := if n > 3 then s[3] else 0;
    if n == 1 then a
    else if n == 2 then (a - 0xC0) * 64 + (b - 0x80)
    else if n == 3 then (a - 0xE0) * 4096 + (b - 0x80) * 64 + (c - 0x80)
    else (a - 0xF0) * 262144 + (b - 0x80) * 4096 + (c - 0x80) * 64 + (d - 0x80)
  }

  lemma Joined(x: int, b: int, c: int, d: int)
    requires 0 <= x && 0 <= b < 64 && 0 <= c < 64 && 0 <= d < 64
    ensures (x * 64 + b) / 64 == x && (x * 64 + b) % 64 == b
    ensures var n := x * 4096 + b * 64 + c; n / 4096 == x && n / 64 % 64 == b && n % 64 == c
    ensures var n := x * 262144 + b * 4096 + c * 64 + d; n / 262144 == x && n / 4096 % 64 == b && n / 64 % 64 == c && n % 64 == d
  {
    var n := x * 4096 + b * 64 + c;
    assert n / 64 == x * 64 + b;
    var m := x * 262144 + b * 4096 + c * 64 + d;
    assert m / 64 == x * 4096 + b * 64 + c;
    assert m / 4096 == x * 64 + b;
  }

  /** Where the bytes of a sequence of each length lie. */
  lemma Utf8Bounds(s: bytes)
    requires Utf8Length(s) > 0
    ensures var n := Utf8Length(s);
            && n <= |s| && (n == 1 ==> s[0] < 0x80)
            && (n == 2 ==> 0xC2 <= s[0] <= 0xDF && IsTail(s[1]))
            && (n == 3 ==> 0xE0 <= s[0] <= 0xEF && IsTail(s[1]) && IsTail(s[2]) && (s[0] == 0xE0 ==> s[1] >= 0xA0) && (s[0] == 0xED ==> s[1] <= 0x9F))
            && (n == 4 ==> 0xF0 <= s[0] <= 0xF4 && IsTail(s[1]) && IsTail(s[2]) && IsTail(s[3]) && (s[0] == 0xF0 ==> s[1] >= 0x90) && (s[0] == 0xF4 ==> s[1] <= 0x8F))
  {
  }

  lemma ReadIsEncoded(s: bytes)
    requires Utf8Length(s) > 0
    ensures IsScalar(Scalar(s)) && s[..Utf8Length(s)] == Encode(Scalar(s))
  {
    Utf8Bounds(s);
    var n := Utf8Length(s);
    hide Utf8Length;
    match n
    case 1 => assert s[..1] == [s[0]];
    case 2 =>
      Joined(s[0] - 0xC0, s[1] - 0x80, 0, 0);
      assert s[..2] == [s[0], s[1]];
    case 3 =>
      Joined(s[0] - 0xE0, s[1] - 0x80, s[2] - 0x80, 0);
      assert s[..3] == [s[0], s[1], s[2]];
    case _ =>
      Joined(s[0] - 0xF0, s[1] - 0x80, s[2] - 0x80, s[3] - 0x80);
      assert s[..4] == [s[0], s[1], s[2], s[3]];
  }

  lemma {:induction false} TextIsEncoded(s: bytes) returns (cs: seq<int>)
    requires ValidUtf8(s)
    ensures (forall i :: 0 <= i < |cs| ==> IsScalar(cs[i])) && s == EncodeAll(cs)
    decreases |s|
  {
    if s == [] {
      cs := [];
    } else {
      var n := Utf8Length(s);
      ReadIsEncoded(s);
      hide Encode, Utf8Length, Scalar;
      var more := TextIsEncoded(s[n..]);
      cs := [Scalar(s)] + more;
      assert cs[1..] == more && cs[0] == Scalar(s);
      hide ValidUtf8;
      assert EncodeAll(cs) == Encode(cs[0]) + EncodeAll(cs[1..]);
      hide EncodeAll;
      assert s == s[..n] + s[n..];
    }
  }

  lemma {:induction false} EncodedIsText(cs: seq<int>)
    requires forall i :: 0 <= i < |cs| ==> IsScalar(cs[i])
    ensures ValidUtf8(EncodeAll(cs))
    decreases |cs|
  {
    if cs != [] {
      EncodedIsRead(cs[0], EncodeAll(cs[1..]));
      EncodedIsText(cs[1..]);
      hide Encode, Utf8Length;
      assert (Encode(cs[0]) + EncodeAll(cs[1..]))[|Encode(cs[0])|..] == EncodeAll(cs[1..]);
    }
  }

  /** Bytes are taken as text if and only if they are the encoding of characters. */
  lemma Utf8Iff(s: bytes)
    ensures ValidUtf8(s) <==> exists cs: seq<int> :: (forall i :: 0 <= i < |cs| ==> IsScalar(cs[i])) && s == EncodeAll(cs)
  {
    if ValidUtf8(s) { var cs := TextIsEncoded(s); }
    if cs: seq<int> :| (forall i :: 0 <= i < |cs| ==> IsScalar(cs[i])) && s == EncodeAll(cs) { EncodedIsText(cs); }
  }

  // -- pausing -------------------------------------------------------------------------------------

  /** An open cycle whose queue is long has reading paused. */
  predicate PausesInTime(w: Ws) { !w.closed && w.wire.open && |w.incoming| >= 32 ==> w.wire.readPaused }

  lemma {:induction false} FeedPauses(w: Ws)
    requires PausesInTime(w)
    ensures PausesInTime(FeedLoop(w))
    decreases |w.buffer|
  {
    FrameShortens(w.buffer, w.maxMessageSize);
    hide NextFrame, HandleFrame, Fail;
    match NextFrame(w.buffer, w.maxMessageSize)
    case NoFrame =>
    case BadFrame(e) => FailCloses(w, e.Code(), e.Reason());
    case GotFrame(f, rest) =>
      var r := HandleFrame(w.(buffer := rest), f);
      assert SameRest(w.(buffer := rest), r.next);
      if r.Violated? { FailCloses(r.next, r.error.Code(), r.error.Reason()); }
      else if !r.next.closed { FeedPauses(PauseIfBehind(r.next)); }
  }

  lemma ActPauses(w: Ws, a: Action)
    requires PausesInTime(w) && Enabled(w, a)
    ensures PausesInTime(Act(w, a))
  {
    hide FeedLoop, ClosePayload;
    if a.Feed? { FeedPauses(w.(buffer := w.buffer + a.data)); }
  }

  lemma {:induction false} RunPauses(start: Ws, actions: seq<Action>, w: Ws)
    requires PausesInTime(start) && Reachable(start, actions, w)
    ensures PausesInTime(w)
    decreases |actions|
  {
    hide Act, Enabled, PausesInTime;
    if actions != [] {
      ActPauses(start, actions[0]);
      RunPauses(Act(start, actions[0]), actions[1..], w);
    }
  }

  /** In every run: reading is paused while 32 messages or more wait on an open cycle, and
      it is not paused while the queue is down to 8 or fewer. */
  lemma QueueIsBounded(maxMessageSize: nat, answer: Answer, actions: seq<Action>, w: Ws)
    requires Reachable(Fresh(maxMessageSize, answer), actions, w) && !w.closed && w.wire.open
    ensures |w.incoming| >= 32 ==> w.wire.readPaused
    ensures |w.incoming| <= 8 ==> !w.wire.readPaused
  {
    RunPauses(Fresh(maxMessageSize, answer), actions, w);
    EveryRunIsSafe(maxMessageSize, answer, actions, w);
    hide Reachable;
  }
}
