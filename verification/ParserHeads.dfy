/** Request heads as a client writes them, and the parser that reads them back. */
module ParserHeads {
  import opened Bytes
  import opened ParserSpec
  import opened ParserChunks

  // -- writing a head ------------------------------------------------------------------

  function VersionText(m: RequestLineParts): bytes { Ascii(" HTTP/") + [m.major, 46, m.minor] }

  function PrintRequestLine(m: RequestLineParts): bytes { m.verb + [SP] + m.target + VersionText(m) }

  function PrintField(h: Header): bytes { h.name + [58] + h.value }

  function PrintFields(headers: seq<Header>): bytes {
    if headers == [] then [] else PrintField(headers[0]) + CRLF + PrintFields(headers[1..])
  }

  function PrintHead(m: RequestLineParts, headers: seq<Header>): bytes {
    PrintRequestLine(m) + CRLF + PrintFields(headers) + CRLF
  }

  predicate IsRequestLine(m: RequestLineParts) {
    && m.verb != [] && All(m.verb, IsTokenByte) && m.target != [] && All(m.target, IsTargetByte)
    && IsDigit(m.major) && IsDigit(m.minor)
  }

  /** A field with a token for a name and no blanks around its value. */
  predicate IsField(h: Header) {
    && h.name != [] && All(h.name, IsTokenByte) && All(h.value, IsFieldByte)
    && TrimBlanksRight(TrimBlanksLeft(h.value)) == h.value
  }

  predicate AreFields(headers: seq<Header>) { forall i :: 0 <= i < |headers| ==> IsField(headers[i]) }

  function LowerAll(headers: seq<Header>): (r: seq<Header>)
    ensures |r| == |headers|
  {
    seq(|headers|, i requires 0 <= i < |headers| => Header(Lower(headers[i].name), headers[i].value))
  }

  // -- reading one line ------------------------------------------------------------------

  lemma RequestLineRoundTrip(m: RequestLineParts)
    requires IsRequestLine(m)
    ensures MatchRequestLine(PrintRequestLine(m)) == Some(m) && Without(PrintRequestLine(m), LF)
    ensures PrintRequestLine(m) != [] && PrintRequestLine(m)[0] != CR
  {
    var line, i, tail := PrintRequestLine(m), |m.verb|, VersionText(m);
    var rest := m.target + tail;
    TokensAreVisible(m.verb);
    TargetIsVisible(m.target);
    VersionIsText(m);
    hide IsTokenByte, IsTargetByte, All, VersionText, Ascii;
    assert line == m.verb + [SP] + rest;
    IndexOfIs(line, SP, i);
    assert line[..i] == m.verb && line[i + 1..] == rest;
    assert rest[..|rest| - 9] == m.target && rest[|rest| - 9..] == tail;
    assert line[0] == m.verb[0];
  }

  lemma TargetIsVisible(s: bytes)
    requires All(s, IsTargetByte)
    ensures Without(s, LF)
  {
  }

  lemma VersionIsText(m: RequestLineParts)
    requires IsDigit(m.major) && IsDigit(m.minor)
    ensures var t := VersionText(m);
            |t| == 9 && t[..6] == Ascii(" HTTP/") && t[6] == m.major && t[7] == 46 && t[8] == m.minor && Without(t, LF)
  {
    var t := VersionText(m);
    assert t[..6] == Ascii(" HTTP/");
  }

  lemma TokensAreVisible(s: bytes)
    requires All(s, IsTokenByte)
    ensures Without(s, SP) && Without(s, LF) && Without(s, CR) && Without(s, 58)
    ensures s != [] ==> s[0] != TAB
  {
    forall i | 0 <= i < |s| ensures 33 <= s[i] && s[i] != 58 {
      var marks := Ascii("!#$%&'*+-.^_`|~");
      assert IsTokenByte(s[i]);
      if s[i] in marks {
        var k :| 0 <= k < |marks| && marks[k] == s[i];
      }
    }
  }

  lemma FieldRoundTrip(h: Header)
    requires IsField(h)
    ensures MatchHeaderLine(PrintField(h)) == Some(h) && Without(PrintField(h), LF)
    ensures PrintField(h) != [] && PrintField(h)[0] != SP && PrintField(h)[0] != TAB
  {
    var line, i := PrintField(h), |h.name|;
    TokensAreVisible(h.name);
    IndexOfIs(line, 58, i);
    assert line[..i] == h.name && line[i + 1..] == h.value;
    assert Without(h.value, LF);
    assert line[0] == h.name[0];
  }

  // -- reading a whole head ----------------------------------------------------------------

  function Finished(s: Step): Turn
    requires s.Emit? || s.Raise?
  {
    if s.Emit? then Turn(Got(s.event), s.next)
    else Turn(Raised(if s.next.error.Some? then s.next.error.value else UnexpectedEof), s.next)
  }

  lemma FieldIsRead(p: Parser, h: Header, rest: bytes)
    requires p.phase == Headers && p.error.None? && IsField(h) && p.buffer == PrintField(h) + CRLF + rest
    requires p.headersSize + |PrintField(h)| + 2 <= p.limits.maxHeadersSize && |p.headers| < p.limits.maxHeaderCount
    ensures NextEvent(p) ==
            NextEvent(p.(buffer := rest, headersSize := p.headersSize + |PrintField(h)| + 2,
                         headers := p.headers + [Header(Lower(h.name), h.value)]))
  {
    hide PrintField, MatchHeaderLine, ReadLine, TakeHeaderLine, IsField;
    FieldRoundTrip(h);
    ReadsLine(PrintField(h), rest, p.limits.maxHeadersSize - p.headersSize, HeadersTooLarge);
    var q := p.(buffer := rest, headersSize := p.headersSize + |PrintField(h)| + 2);
    FieldIsTaken(q, PrintField(h), h);
    StepTakesLine(p, PrintField(h), rest);
  }

  lemma FieldIsTaken(p: Parser, line: bytes, h: Header)
    requires MatchHeaderLine(line) == Some(h) && line != [] && line[0] != SP && line[0] != TAB
    requires |p.headers| < p.limits.maxHeaderCount
    ensures TakeHeaderLine(p, line) == Again(p.(headers := p.headers + [Header(Lower(h.name), h.value)]))
  {
    hide MatchHeaderLine, FinishHeaders;
  }

  lemma {:induction false} FieldsAreRead(p: Parser, headers: seq<Header>, rest: bytes)
    requires p.phase == Headers && p.error.None? && AreFields(headers) && p.buffer == PrintFields(headers) + rest
    requires p.headersSize + |PrintFields(headers)| <= p.limits.maxHeadersSize
    requires |p.headers| + |headers| <= p.limits.maxHeaderCount
    ensures NextEvent(p) ==
            NextEvent(p.(buffer := rest, headersSize := p.headersSize + |PrintFields(headers)|,
                         headers := p.headers + LowerAll(headers)))
    decreases |headers|
  {
    hide NextEvent, PrintField, IsField;
    if headers == [] {
      assert p.buffer == rest && p.headers + LowerAll(headers) == p.headers;
    } else {
      var h, more := headers[0], headers[1..];
      assert p.buffer == PrintField(h) + CRLF + (PrintFields(more) + rest);
      FieldIsRead(p, h, PrintFields(more) + rest);
      var q := p.(buffer := PrintFields(more) + rest, headersSize := p.headersSize + |PrintField(h)| + 2,
                  headers := p.headers + [Header(Lower(h.name), h.value)]);
      FieldsAreRead(q, more, rest);
      assert q.headers + LowerAll(more) == p.headers + LowerAll(headers);
    }
  }

  lemma BlankLineEndsHead(p: Parser, rest: bytes)
    requires p.phase == Headers && p.error.None? && p.buffer == CRLF + rest && p.headersSize < p.limits.maxHeadersSize
    ensures NextEvent(p) == Finished(FinishHeaders(p.(buffer := rest, headersSize := p.headersSize + 2)))
  {
    hide NextEvent, ReadLine, TakeHeaderLine, FinishHeaders, Keeps, Finished, StepOf;
    assert p.buffer == [] + CRLF + rest;
    ReadsLine([], rest, p.limits.maxHeadersSize - p.headersSize, HeadersTooLarge);
    var q := p.(buffer := rest, headersSize := p.headersSize + 2);
    EmptyLineIsTaken(p, q);
    StepTakesLine(p, [], rest);
    LastStep(p, FinishHeaders(q));
  }

  lemma StepTakesLine(p: Parser, line: bytes, rest: bytes)
    requires p.phase == Headers
    requires ReadLine(p.buffer, p.limits.maxHeadersSize - p.headersSize, HeadersTooLarge) == Line(line, rest)
    ensures StepOf(p) == TakeHeaderLine(p.(buffer := rest, headersSize := p.headersSize + |line| + 2), line)
  {
    hide ReadLine, TakeHeaderLine;
  }

  lemma LastStep(p: Parser, s: Step)
    requires p.error.None? && StepOf(p) == s && (s.Emit? || s.Raise?) && Keeps(p, s)
    ensures NextEvent(p) == Finished(s)
  {
    hide StepOf;
  }

  lemma EmptyLineIsTaken(p: Parser, q: Parser)
    requires q.limits == p.limits && q.eof == p.eof && q.error == p.error && q.phase == p.phase
    ensures TakeHeaderLine(q, []) == FinishHeaders(q) && Keeps(p, FinishHeaders(q))
    ensures FinishHeaders(q).Emit? || FinishHeaders(q).Raise?
  {
    assert Keeps(q, FinishHeaders(q));
    hide FinishHeaders;
  }

  lemma LineIsRead(p: Parser, m: RequestLineParts, rest: bytes)
    requires p.phase == RequestLine && !p.started && p.error.None? && IsRequestLine(m)
    requires m.major == 49 && (m.minor == 48 || m.minor == 49) && m.verb != Ascii("CONNECT")
    requires p.buffer == PrintRequestLine(m) + CRLF + rest && |PrintRequestLine(m)| < p.limits.maxRequestLine
    ensures NextEvent(p) ==
            NextEvent(p.(buffer := rest, started := true, verb := m.verb, target := m.target, phase := Headers,
                         version := if m.minor == 48 then Http10 else Http11))
  {
    RequestLineRoundTrip(m);
    ReadsLine(PrintRequestLine(m), rest, p.limits.maxRequestLine, RequestLineTooLong);
    hide PrintRequestLine, MatchRequestLine, ReadLine;
    assert p.buffer[0] != CR;
    assert DropBlankLine(p) == p;
    assert StepOf(p) == StepRequestLine(p);
  }

  /** What the parser has at the end of a head that was written like this. */
  function AtEnd(p: Parser, m: RequestLineParts, headers: seq<Header>, rest: bytes): Parser {
    p.(buffer := rest, started := true, verb := m.verb, target := m.target, phase := Headers,
       version := if m.minor == 48 then Http10 else Http11,
       headersSize := p.headersSize + |PrintFields(headers)| + 2, headers := p.headers + LowerAll(headers))
  }

  /** A request head written by a client is read back whole: the line, the fields in
      order with their names lowered, and not a byte of what follows. */
  lemma HeadRoundTrip(p: Parser, m: RequestLineParts, headers: seq<Header>, rest: bytes)
    requires p.phase == RequestLine && !p.started && p.error.None? && p.buffer == PrintHead(m, headers) + rest
    requires IsRequestLine(m) && m.major == 49 && (m.minor == 48 || m.minor == 49) && m.verb != Ascii("CONNECT")
    requires AreFields(headers) && |PrintRequestLine(m)| < p.limits.maxRequestLine
    requires p.headersSize + |PrintFields(headers)| < p.limits.maxHeadersSize
    requires |p.headers| + |headers| <= p.limits.maxHeaderCount
    ensures NextEvent(p) == Finished(FinishHeaders(AtEnd(p, m, headers, rest)))
  {
    hide NextEvent, FinishHeaders, IsRequestLine, AreFields, LowerAll, Finished;
    var fields := PrintFields(headers) + (CRLF + rest);
    assert p.buffer == PrintRequestLine(m) + CRLF + fields;
    hide PrintRequestLine, PrintFields;
    LineIsRead(p, m, fields);
    var q := p.(buffer := fields, started := true, verb := m.verb, target := m.target, phase := Headers,
                version := if m.minor == 48 then Http10 else Http11);
    FieldsAreRead(q, headers, CRLF + rest);
    BlankLineEndsHead(q.(buffer := CRLF + rest, headersSize := q.headersSize + |PrintFields(headers)|,
                         headers := q.headers + LowerAll(headers)), rest);
  }
}
