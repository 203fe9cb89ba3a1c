/** Whole requests as a client writes them, and what the parser makes of them: which head
    is refused and with what status, what a head says, where the body ends. */
module ParserMessages {
  import opened Bytes
  import opened ParserSpec
  import opened ParserChunks
  import opened ParserHeads
  import opened ParserFields
  import opened ParserSplit

  const HOST: bytes := Ascii("host")
  const LENGTH: bytes := Ascii("content-length")
  const CODING: bytes := Ascii("transfer-encoding")
  const EXPECT: bytes := Ascii("expect")

  /** The text of some field of this name, its case aside. */
  predicate SaysText(headers: seq<Header>, name: bytes, text: bytes) {
    exists i :: 0 <= i < |headers| && Named(headers[i], name) && Lower(headers[i].value) == text
  }

  // -- which heads are refused ---------------------------------------------------------------

  predicate NoSize(headers: seq<Header>) { Absent(headers, LENGTH) && Absent(headers, CODING) }

  /** Where the fields do not say how long the body is, or say it twice: the status. */
  ghost function FramingRefusal(minor: byte, headers: seq<Header>): Option<int> {
    if Repeats(headers, HOST) || (minor == 49 && Absent(headers, HOST)) then Some(400)
    else if !Absent(headers, CODING) then
      if !Absent(headers, LENGTH) || Repeats(headers, CODING) then Some(400)
      else if !SaysText(headers, CODING, Ascii("chunked")) then Some(501)
      else if minor == 48 then Some(400)
      else None
    else if !Absent(headers, LENGTH) && (Repeats(headers, LENGTH) || forall n: nat :: !Announces(headers, n)) then Some(400)
    else None
  }

  ghost predicate TooLarge(headers: seq<Header>, limits: Limits) {
    Absent(headers, CODING) && limits.maxBodySize.Some? && exists n: nat :: Announces(headers, n) && n > limits.maxBodySize.value
  }

  /** The path of the target is there and in ASCII. */
  ghost predicate GoodTarget(target: bytes) { exists path, query :: TargetReads(target, path, query) && All(path, IsAscii) }

  /** The status with which a head of legal lines is refused, if it is. */
  ghost function Refusal(m: RequestLineParts, headers: seq<Header>, limits: Limits): Option<int> {
    if FramingRefusal(m.minor, headers).Some? then FramingRefusal(m.minor, headers)
    else if TooLarge(headers, limits) then Some(413)
    else if !Absent(headers, EXPECT) && (Repeats(headers, EXPECT) || !SaysText(headers, EXPECT, Ascii("100-continue"))) then Some(417)
    else if !GoodTarget(m.target) then Some(400)
    else None
  }

  // -- what a head says ------------------------------------------------------------------------

  /** The head says what the line and the fields say. */
  ghost predicate IsHeadOf(h: RequestHead, m: RequestLineParts, headers: seq<Header>) {
    && h.verb == m.verb && h.version == (if m.minor == 48 then Http10 else Http11)
    && TargetReads(m.target, h.rawPath, h.query) && h.headers == LowerAll(headers)
    && (h.keepAlive <==>
          if m.minor == 49 then !Says(headers, Ascii("connection"), Ascii("close"))
          else Says(headers, Ascii("connection"), Ascii("keep-alive")))
    && (h.expectContinue <==> m.minor == 49 && !Absent(headers, EXPECT))
    && (h.chunked <==> !Absent(headers, CODING))
    && (h.contentLength.None? <==> Absent(headers, LENGTH))
    && (h.contentLength.Some? ==> Announces(headers, h.contentLength.value))
  }

  // -- values without blanks around them ----------------------------------------------------

  lemma {:induction false} TrimmedEnds(s: bytes)
    requires TrimBlanksRight(TrimBlanksLeft(s)) == s
    ensures s != [] ==> s[0] != SP && s[0] != TAB && s[|s| - 1] != SP && s[|s| - 1] != TAB
  {
    TrimLeftShortens(s);
    TrimRightShortens(TrimBlanksLeft(s));
  }

  lemma TrimLeftShortens(s: bytes)
    ensures |TrimBlanksLeft(s)| <= |s|
    ensures TrimBlanksLeft(s) == s || |TrimBlanksLeft(s)| < |s|
    ensures s != [] && TrimBlanksLeft(s) == s ==> s[0] != SP && s[0] != TAB
  {
  }

  lemma TrimRightShortens(s: bytes)
    ensures |TrimBlanksRight(s)| <= |s|
    ensures TrimBlanksRight(s) == s || |TrimBlanksRight(s)| < |s|
    ensures s != [] && TrimBlanksRight(s) == s ==> s[|s| - 1] != SP && s[|s| - 1] != TAB
  {
  }

  lemma FieldIsStripped(h: Header)
    requires IsField(h)
    ensures Strip(h.value) == h.value
  {
    TrimmedEnds(h.value);
    var s := h.value;
    if s != [] { assert IsFieldByte(s[0]) && IsFieldByte(s[|s| - 1]); }
  }

  /** The text of the only field of this name. */
  lemma TextIff(headers: seq<Header>, name: bytes, text: bytes)
    requires AreFields(headers) && !Absent(headers, name) && !Repeats(headers, name)
    ensures var values := ValuesOf(LowerAll(headers), name);
            |values| == 1 && (Lower(Strip(values[0])) == text <==> SaysText(headers, name, text))
  {
    hide IsField, Lower, Strip, LowerAll, ValuesOf;
    var value := TheOne(headers, name);
    assert Has(headers, name, value);
    forall i | 0 <= i < |headers| && Named(headers[i], name) ensures headers[i].value == value && Strip(value) == value {
      assert Has(headers, name, headers[i].value);
      FieldIsStripped(headers[i]);
    }
  }

  /** The length that the only field of this name announces. */
  lemma AnnouncedIff(headers: seq<Header>)
    requires !Absent(headers, LENGTH) && !Repeats(headers, LENGTH)
    ensures var values := ValuesOf(LowerAll(headers), LENGTH);
            && |values| == 1 && (IsContentLength(values[0]) <==> exists n: nat :: Announces(headers, n))
            && (IsContentLength(values[0]) ==> forall n: nat :: Announces(headers, n) <==> n == NumeralValue(values[0], 10))
  {
    hide Lower, LowerAll, ValuesOf, NumeralValue, Decimal;
    var value := TheOne(headers, LENGTH);
    LengthIff(value);
    assert Has(headers, LENGTH, value);
    forall i | 0 <= i < |headers| && Named(headers[i], LENGTH) ensures headers[i].value == value {
      assert Has(headers, LENGTH, headers[i].value);
    }
    if IsDecimal(value) {
      DecimalIs(value);
      assert Announces(headers, Decimal(value));
    }
  }

  lemma AnnouncesNothing(headers: seq<Header>)
    requires Absent(headers, LENGTH)
    ensures forall n: nat :: !Announces(headers, n)
  {
  }

  // -- the end of the head ----------------------------------------------------------------------

  /** How the body is delimited, or the status of a refusal. */
  lemma FramingIs(m: RequestLineParts, headers: seq<Header>)
    requires AreFields(headers) && (m.minor == 48 || m.minor == 49)
    ensures var f := FramingOf(LowerAll(headers), if m.minor == 48 then Http10 else Http11);
            match FramingRefusal(m.minor, headers)
            case Some(status) => f.FramingError? && f.error.Status() == status
            case None =>
              && f.FramedAs? && (f.framing.chunked <==> !Absent(headers, CODING))
              && (f.framing.contentLength.None? <==> Absent(headers, LENGTH))
              && (f.framing.contentLength.Some? ==> !f.framing.chunked && forall n: nat :: Announces(headers, n) <==> n == f.framing.contentLength.value)
  {
    hide AreFields, Repeats, Absent, Announces, SaysText, Lower, Strip, LowerAll, ValuesOf, NumeralValue, IsContentLength, Ascii;
    CountIff(headers, HOST);
    CountIff(headers, CODING);
    CountIff(headers, LENGTH);
    if !Absent(headers, CODING) && !Repeats(headers, CODING) { TextIff(headers, CODING, Ascii("chunked")); }
    if !Absent(headers, LENGTH) && !Repeats(headers, LENGTH) { AnnouncedIff(headers); }
  }

  /** Expectation and target: the head is built, or refused with its status. */
  lemma BuiltIs(m: RequestLineParts, headers: seq<Header>, framing: Framing)
    requires AreFields(headers) && (m.minor == 48 || m.minor == 49)
    ensures var b := BuildHead(m.verb, if m.minor == 48 then Http10 else Http11, m.target, LowerAll(headers), framing);
            if !Absent(headers, EXPECT) && (Repeats(headers, EXPECT) || !SaysText(headers, EXPECT, Ascii("100-continue")))
            then b.BadHead? && b.error.Status() == 417
            else if !GoodTarget(m.target) then b.BadHead? && b.error.Status() == 400
            else
              && b.GoodHead? && b.head.verb == m.verb && b.head.version == (if m.minor == 48 then Http10 else Http11)
              && TargetReads(m.target, b.head.rawPath, b.head.query) && b.head.headers == LowerAll(headers)
              && (b.head.keepAlive <==>
                    if m.minor == 49 then !Says(headers, Ascii("connection"), Ascii("close"))
                    else Says(headers, Ascii("connection"), Ascii("keep-alive")))
              && (b.head.expectContinue <==> m.minor == 49 && !Absent(headers, EXPECT))
              && b.head.chunked == framing.chunked && b.head.contentLength == framing.contentLength
  {
    hide AreFields, Repeats, Absent, SaysText, Says, Lower, Strip, LowerAll, ValuesOf, SplitTarget, TargetReads, HasConnectionToken, Ascii;
    CountIff(headers, EXPECT);
    if !Absent(headers, EXPECT) && !Repeats(headers, EXPECT) { TextIff(headers, EXPECT, Ascii("100-continue")); }
    SaysIff(headers, Ascii("close"));
    SaysIff(headers, Ascii("keep-alive"));
    TargetIs(m.target);
  }

  lemma TargetIs(target: bytes)
    ensures var t := SplitTarget(target);
            && (GoodTarget(target) <==> t.Some? && All(t.value.rawPath, IsAscii))
            && (t.Some? ==> TargetReads(target, t.value.rawPath, t.value.query))
  {
    hide SplitTarget, TargetReads;
    forall path, query ensures SplitTarget(target) == Some(Target(path, query)) <==> TargetReads(target, path, query) {
      TargetIff(target, path, query);
    }
    if SplitTarget(target).Some? {
      assert SplitTarget(target) == Some(Target(SplitTarget(target).value.rawPath, SplitTarget(target).value.query));
    }
  }

  /** What is left to read behind a head. */
  function Behind(q: Parser, h: RequestHead): Parser {
    var n := if h.contentLength.Some? then h.contentLength.value else 0;
    if h.chunked then q.(phase := ChunkSize) else q.(bodySize := n, remaining := n, phase := BodyLength)
  }

  lemma FinishedIs(q: Parser, m: RequestLineParts, headers: seq<Header>)
    requires AreFields(headers) && (m.minor == 48 || m.minor == 49)
    requires q.verb == m.verb && q.target == m.target && q.version == (if m.minor == 48 then Http10 else Http11)
    requires q.headers == LowerAll(headers) && q.bodySize == 0
    ensures var s := FinishHeaders(q);
            match Refusal(m, headers, q.limits)
            case Some(status) => s.Raise? && s.next.error.Some? && s.next.error.value.Status() == status
            case None => s.Emit? && s.event.Head? && IsHeadOf(s.event.head, m, headers) && s.next == Behind(q, s.event.head)
  {
    hide AreFields, Repeats, Absent, SaysText, Says, Lower, LowerAll, TargetReads, GoodTarget, Announces, FramingOf, BuildHead, FramingRefusal, Ascii;
    FramingIs(m, headers);
    var f := FramingOf(q.headers, q.version);
    if f.FramedAs? {
      SizeIsWithin(headers, q.limits, f.framing);
      BuiltIs(m, headers, f.framing);
    }
  }

  lemma SizeIsWithin(headers: seq<Header>, limits: Limits, framing: Framing)
    requires framing.chunked <==> !Absent(headers, CODING)
    requires framing.contentLength.None? <==> Absent(headers, LENGTH)
    requires framing.contentLength.Some? ==> !framing.chunked && forall n: nat :: Announces(headers, n) <==> n == framing.contentLength.value
    ensures TooLarge(headers, limits) <==>
            framing.contentLength.Some? && limits.maxBodySize.Some? && framing.contentLength.value > limits.maxBodySize.value
  {
    if framing.contentLength.None? { AnnouncesNothing(headers); } else { assert Announces(headers, framing.contentLength.value); }
    hide Announces, Absent;
  }

  // -- whole requests -----------------------------------------------------------------------

  /** A request line is due. */
  predicate Due(p: Parser) {
    && p.phase == RequestLine && !p.started && p.error.None? && p.headers == [] && p.headersSize == 0
    && p.bodySize == 0 && p.chunkRemaining == 0
  }

  /** A head of legal lines, within the limits of the parser. */
  predicate IsLegalHead(m: RequestLineParts, headers: seq<Header>, limits: Limits) {
    && IsRequestLine(m) && m.major == 49 && (m.minor == 48 || m.minor == 49) && m.verb != Ascii("CONNECT")
    && AreFields(headers) && |PrintRequestLine(m)| < limits.maxRequestLine
    && |PrintFields(headers)| < limits.maxHeadersSize && |headers| <= limits.maxHeaderCount
  }

  /** A legal head is refused with the status that its fields call for, or it is read as
      what it says. */
  lemma HeadIsReadAsWritten(p: Parser, m: RequestLineParts, headers: seq<Header>, rest: bytes)
    requires Due(p) && IsLegalHead(m, headers, p.limits) && p.buffer == PrintHead(m, headers) + rest
    ensures var t := NextEvent(p);
            match Refusal(m, headers, p.limits)
            case Some(status) => t.outcome.Raised? && t.outcome.error.Status() == status
            case None =>
              && t.outcome.Got? && t.outcome.event.Head? && IsHeadOf(t.outcome.event.head, m, headers)
              && t.next == Behind(AtEnd(p, m, headers, rest), t.outcome.event.head)
  {
    hide NextEvent, FinishHeaders, IsRequestLine, AreFields, PrintHead, PrintFields, PrintRequestLine, LowerAll, IsHeadOf, Refusal;
    HeadRoundTrip(p, m, headers, rest);
    assert [] + LowerAll(headers) == LowerAll(headers);
    FinishedIs(AtEnd(p, m, headers, rest), m, headers);
  }

  function Piece(body: bytes): seq<Event> { if body == [] then [] else [BodyData(body)] }

  lemma LengthBodyDrains(p: Parser, body: bytes, rest: bytes, serial: bool)
    requires p.phase == BodyLength && p.error.None? && p.remaining == |body| && p.buffer == body + rest
    ensures var after := Drain(p.(buffer := rest, remaining := 0, phase := Complete), serial);
            Drain(p, serial) == Drained(Piece(body) + [EndOfMessage] + after.events, after.next)
  {
    var q := p.(buffer := rest, remaining := 0);
    var done := q.(phase := Complete);
    assert StepOf(q) == Emit(EndOfMessage, done);
    var after := Drain(done, serial);
    assert Drain(q, serial) == Drained([EndOfMessage] + after.events, after.next) by { hide StepOf; }
    if body == [] {
      assert p == q && Piece(body) + [EndOfMessage] + after.events == [EndOfMessage] + after.events;
    } else {
      assert p.buffer[..|body|] == body && p.buffer[|body|..] == rest;
      assert StepOf(p) == Emit(BodyData(body), q);
      hide StepOf;
      assert Piece(body) + [EndOfMessage] + after.events == [BodyData(body)] + ([EndOfMessage] + after.events);
    }
  }

  /** A request whose body is delimited by its length, or that has none: the head says what
      was written, the body is exactly the bytes announced, and what follows is the next
      request's. */
  lemma RequestRoundTrip(p: Parser, m: RequestLineParts, headers: seq<Header>, body: bytes, rest: bytes, serial: bool)
    returns (h: RequestHead)
    requires Due(p) && IsLegalHead(m, headers, p.limits) && Refusal(m, headers, p.limits).None?
    requires Absent(headers, CODING) && (if Absent(headers, LENGTH) then body == [] else Announces(headers, |body|))
    requires p.buffer == PrintHead(m, headers) + body + rest
    ensures IsHeadOf(h, m, headers) && h.contentLength == if Absent(headers, LENGTH) then None else Some(|body|)
    ensures var done := AtEnd(p, m, headers, rest).(bodySize := |body|, remaining := 0, phase := Complete);
            var after := Drain(done, serial);
            Drain(p, serial) == Drained([Head(h)] + Piece(body) + [EndOfMessage] + after.events, after.next)
  {
    hide Drain, NextEvent, PrintHead, PrintFields, LowerAll, IsHeadOf, Refusal, Piece, IsLegalHead, Announces, Absent;
    Regroup(PrintHead(m, headers), body, rest);
    HeadIsReadAsWritten(p, m, headers, body + rest);
    var t := NextEvent(p);
    h := t.outcome.event.head;
    FramedWithoutRefusal(m, headers, p.limits);
    LengthIs(m, headers, h, |body|);
    NextEventDrains(p, serial);
    LengthBodyDrains(t.next, body, rest, serial);
    var done := AtEnd(p, m, headers, rest).(bodySize := |body|, remaining := 0, phase := Complete);
    assert t.next.(buffer := rest, remaining := 0, phase := Complete) == done;
    Regroup([Head(h)], Piece(body) + [EndOfMessage], Drain(done, serial).events);
    Regroup([Head(h)], Piece(body), [EndOfMessage]);
  }

  lemma Regroup<T>(a: seq<T>, b: seq<T>, c: seq<T>)
    ensures a + (b + c) == a + b + c
  {
  }

  lemma FramedWithoutRefusal(m: RequestLineParts, headers: seq<Header>, limits: Limits)
    requires Refusal(m, headers, limits).None? && IsLegalHead(m, headers, limits)
    ensures FramingRefusal(m.minor, headers).None? && AreFields(headers) && (m.minor == 48 || m.minor == 49)
  {
  }

  lemma LengthIs(m: RequestLineParts, headers: seq<Header>, h: RequestHead, n: nat)
    requires IsHeadOf(h, m, headers) && Absent(headers, CODING) && AreFields(headers) && (m.minor == 48 || m.minor == 49)
    requires FramingRefusal(m.minor, headers).None?
    requires if Absent(headers, LENGTH) then n == 0 else Announces(headers, n)
    ensures !h.chunked && h.contentLength == if Absent(headers, LENGTH) then None else Some(n)
  {
    if !Absent(headers, LENGTH) { AnnouncedIff(headers); }
    hide Announces, Absent, AreFields;
  }

  /** A length that is printed as `str(n)` prints it announces that many bytes. */
  lemma PrintedLengthAnnounces(headers: seq<Header>, n: nat)
    requires |Numeral(n, 10)| <= 19 && Has(headers, LENGTH, Numeral(n, 10))
    ensures Announces(headers, n)
  {
    PrintedIsDecimal(n);
    hide Numeral, Decimal, IsDecimal, Lower;
    var i :| 0 <= i < |headers| && Named(headers[i], LENGTH) && headers[i].value == Numeral(n, 10);
  }

  /** A request whose body comes in chunks. */
  lemma ChunkedRequestRoundTrip(p: Parser, m: RequestLineParts, headers: seq<Header>, bodies: seq<bytes>, rest: bytes, serial: bool)
    returns (h: RequestHead)
    requires Due(p) && IsLegalHead(m, headers, p.limits) && Refusal(m, headers, p.limits).None? && !Absent(headers, CODING)
    requires ChunkLengthsFit(bodies) && p.limits.maxChunkLine >= 17 && |PrintFields(headers)| + 3 <= p.limits.maxHeadersSize
    requires p.limits.maxBodySize.Some? ==> Sizes(bodies) <= p.limits.maxBodySize.value
    requires p.buffer == PrintHead(m, headers) + EncodeChunks(bodies) + LAST_CHUNK + rest
    ensures IsHeadOf(h, m, headers) && h.chunked && h.contentLength.None?
    ensures var after := Drain(PastBody(AtEnd(p, m, headers, []), Sizes(bodies), rest), serial);
            Drain(p, serial) == Drained([Head(h)] + Bodies(bodies) + [EndOfMessage] + after.events, after.next)
  {
    hide Drain, NextEvent, PrintHead, PrintFields, LowerAll, IsHeadOf, Refusal, Bodies, Sizes, IsLegalHead, Absent, EncodeChunks, LAST_CHUNK;
    hide ChunkLengthsFit;
    var tail := EncodeChunks(bodies) + LAST_CHUNK + rest;
    Regroup(PrintHead(m, headers), EncodeChunks(bodies), LAST_CHUNK);
    Regroup(PrintHead(m, headers), EncodeChunks(bodies) + LAST_CHUNK, rest);
    HeadIsReadAsWritten(p, m, headers, tail);
    var t := NextEvent(p);
    h := t.outcome.event.head;
    ChunksLeaveNoLength(m, headers, h, p.limits);
    NextEventDrains(p, serial);
    ChunkedRoundTrip(t.next, bodies, rest, serial);
    assert PastBody(t.next, Sizes(bodies), rest) == PastBody(AtEnd(p, m, headers, []), Sizes(bodies), rest);
    Regroup([Head(h)], Bodies(bodies) + [EndOfMessage], Drain(PastBody(t.next, Sizes(bodies), rest), serial).events);
    Regroup([Head(h)], Bodies(bodies), [EndOfMessage]);
  }

  lemma ChunksLeaveNoLength(m: RequestLineParts, headers: seq<Header>, h: RequestHead, limits: Limits)
    requires Refusal(m, headers, limits).None? && IsHeadOf(h, m, headers) && !Absent(headers, CODING)
    ensures h.chunked && h.contentLength.None?
  {
    hide Absent, Repeats, SaysText, Says, TargetReads, Announces;
  }

  // -- in any pieces ---------------------------------------------------------------------------

  lemma StaysBehind(p: Parser)
    requires p.phase != RequestLine
    ensures StepOf(p).Again? || StepOf(p).Emit? ==> StepOf(p).next.phase != RequestLine
  {
    hide ReadLine, MatchHeaderLine, MatchChunkSize, FramingOf, BuildHead, Keeps, Advances;
  }

  lemma {:induction false} BehindIsSeparated(p: Parser)
    requires p.phase != RequestLine
    ensures Separated(p, false)
    decreases |p.buffer|, Rank(p.phase)
  {
    StaysBehind(p);
    assert Advances(p, StepOf(p));
    hide StepOf;
    if p.error.None? && p.phase != Complete && (StepOf(p).Again? || StepOf(p).Emit?) { BehindIsSeparated(StepOf(p).next); }
  }

  lemma LineLeadsBehind(p: Parser)
    requires p.phase == RequestLine
    ensures !StepOf(p).Emit? && (StepOf(p).Again? ==> StepOf(p).next.phase != RequestLine)
  {
    hide ReadLine, MatchRequestLine, Keeps, Advances;
  }

  lemma OneMessageIsSeparated(p: Parser)
    requires p.phase == RequestLine && !(CRLF + CRLF <= p.buffer)
    ensures Separated(p, false)
  {
    LineLeadsBehind(p);
    hide StepOf;
    if p.error.None? && StepOf(p).Again? { BehindIsSeparated(StepOf(p).next); }
  }

  /** However the bytes of a request are cut into reads, the parser hands out what was
      written. */
  lemma RequestSurvivesAnyCut(limits: Limits, m: RequestLineParts, headers: seq<Header>, body: bytes, pieces: seq<bytes>)
    returns (h: RequestHead)
    requires IsLegalHead(m, headers, limits) && Refusal(m, headers, limits).None?
    requires Absent(headers, CODING) && (if Absent(headers, LENGTH) then body == [] else Announces(headers, |body|))
    requires Concat(pieces) == PrintHead(m, headers) + body
    ensures IsHeadOf(h, m, headers) && h.contentLength == if Absent(headers, LENGTH) then None else Some(|body|)
    ensures var d := DrainPieces(Fresh(limits), pieces, false);
            Trace(d.events) == Trace([Head(h)] + Piece(body) + [EndOfMessage]) && d.next.phase == Complete && d.next.buffer == []
  {
    hide Drain, DrainPieces, PrintHead, IsHeadOf, Refusal, Piece, IsLegalHead, Announces, Absent, Concat, Trace, PrintFields;
    var stream := PrintHead(m, headers) + body;
    HeadStartsWithToken(limits, m, headers, body);
    Nothing(stream);
    var p := Feed(Fresh(limits), stream);
    h := RequestRoundTrip(p, m, headers, body, [], false);
    PiecesOfOneMessage(limits, stream, pieces);
    DoneDrains(AtEnd(p, m, headers, []).(bodySize := |body|, remaining := 0, phase := Complete));
    Nothing([Head(h)] + Piece(body) + [EndOfMessage]);
  }

  lemma PiecesOfOneMessage(limits: Limits, stream: bytes, pieces: seq<bytes>)
    requires limits.maxRequestLine >= 1 && !(CRLF + CRLF <= stream) && Concat(pieces) == stream
    ensures var cut, whole := DrainPieces(Fresh(limits), pieces, false), Drain(Feed(Fresh(limits), stream), false);
            Trace(cut.events) == Trace(whole.events) && cut.next == whole.next
  {
    hide Drain, DrainPieces, Separated, Trace, Concat;
    Nothing(stream);
    OneMessageIsSeparated(Feed(Fresh(limits), stream));
    FreshIsQuiet(limits, false);
    PiecesAsOne(Fresh(limits), pieces, false);
  }

  lemma Nothing<T>(s: seq<T>)
    ensures [] + s == s && s + [] == s
  {
  }

  lemma DoneDrains(p: Parser)
    requires p.phase == Complete
    ensures Drain(p, false) == Drained([], p)
  {
  }

  lemma HeadStartsWithToken(limits: Limits, m: RequestLineParts, headers: seq<Header>, body: bytes)
    requires IsLegalHead(m, headers, limits)
    ensures limits.maxRequestLine >= 1 && !(CRLF + CRLF <= PrintHead(m, headers) + body)
  {
    TokensAreVisible(m.verb);
    assert (PrintHead(m, headers) + body)[0] == m.verb[0];
  }

  // -- trailers -----------------------------------------------------------------------------------

  lemma TrailerStep(p: Parser, h: Header, rest: bytes)
    requires p.phase == Trailers && p.error.None? && IsField(h) && p.buffer == PrintField(h) + CRLF + rest
    requires p.headersSize + |PrintField(h)| + 2 <= p.limits.maxHeadersSize
    ensures StepOf(p) == Again(p.(buffer := rest, headersSize := p.headersSize + |PrintField(h)| + 2))
  {
    FieldRoundTrip(h);
    ReadsLine(PrintField(h), rest, p.limits.maxHeadersSize - p.headersSize, HeadersTooLarge);
    hide PrintField, MatchHeaderLine, ReadLine, Keeps, Advances;
    assert StepOf(p) == StepTrailers(p);
  }

  /** Trailer fields behind the last chunk are read and dropped. */
  lemma {:induction false} TrailersAreDropped(p: Parser, trailers: seq<Header>, rest: bytes, serial: bool)
    requires p.phase == Trailers && p.error.None? && AreFields(trailers) && p.buffer == PrintFields(trailers) + CRLF + rest
    requires p.headersSize + |PrintFields(trailers)| < p.limits.maxHeadersSize
    ensures var after := Drain(p.(buffer := rest, headersSize := p.headersSize + |PrintFields(trailers)| + 2, phase := Complete), serial);
            Drain(p, serial) == Drained([EndOfMessage] + after.events, after.next)
    decreases |trailers|
  {
    hide StepOf, Drain, IsField, PrintField;
    if trailers == [] {
      assert p.buffer == CRLF + rest;
      EmptyTrailers(p, rest);
      DrainEmits(p, serial);
    } else {
      var h, more := trailers[0], trailers[1..];
      var tail := PrintFields(more) + CRLF + rest;
      FirstTrailer(trailers, rest);
      hide PrintFields;
      var q := p.(buffer := tail, headersSize := p.headersSize + |PrintField(h)| + 2);
      TrailerStep(p, h, tail);
      TrailersAreDropped(q, more, rest, serial);
      DrainEmits(p, serial);
    }
  }

  lemma DrainEmits(p: Parser, serial: bool)
    requires p.error.None? && p.phase != Complete
    ensures StepOf(p).Again? ==> Drain(p, serial) == Drain(StepOf(p).next, serial)
    ensures StepOf(p).Emit? ==>
              var rest := Drain(StepOf(p).next, serial);
              Drain(p, serial) == Drained([StepOf(p).event] + rest.events, rest.next)
  {
    assert Advances(p, StepOf(p));
    hide StepOf;
  }

  lemma FirstTrailer(trailers: seq<Header>, rest: bytes)
    requires trailers != []
    ensures var h, more := trailers[0], trailers[1..];
            && PrintFields(trailers) + CRLF + rest == PrintField(h) + CRLF + (PrintFields(more) + CRLF + rest)
            && |PrintFields(trailers)| == |PrintField(h)| + 2 + |PrintFields(more)|
  {
    var a, b := PrintField(trailers[0]) + CRLF, PrintFields(trailers[1..]);
    hide PrintField;
    Regroup(a, b, CRLF);
    Regroup(a, b + CRLF, rest);
  }
}
