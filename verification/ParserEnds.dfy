/** The end of the stream: where it is an error, and where a request that was cut off
    goes unnoticed. */
module ParserEnds {
  import opened Bytes
  import opened ParserSpec
  import opened ParserChunks
  import opened ParserHeads

  /** Behind at most one empty line there is no whole line, and none that is too long. */
  predicate LineIsMissing(p: Parser) {
    var rest := DropBlankLine(p).buffer;
    rest == [] || (IndexOf(rest, LF).None? && |rest| <= p.limits.maxRequestLine)
  }

  /** Where the end of the stream is taken for a clean one. */
  predicate EndsQuietly(p: Parser) {
    p.phase == Complete || (p.phase == RequestLine && !p.started && LineIsMissing(p))
  }

  lemma LineStepAtEof(p: Parser)
    requires p.eof && p.error.None? && p.phase == RequestLine
    ensures StepOf(p).Wait? <==> EndsQuietly(p)
    ensures StepOf(p).Again? ==> StepOf(p).next.phase == Headers && StepOf(p).next.eof && StepOf(p).next.error.None?
  {
    hide TakeRequestLine;
    var line := ReadLine(DropBlankLine(p).buffer, p.limits.maxRequestLine, RequestLineTooLong);
    if line.Line? { TakenLineGoesOn(DropBlankLine(p).(buffer := line.rest, started := true), line.line); }
  }

  lemma TakenLineGoesOn(p: Parser, line: bytes)
    requires p.eof && p.error.None?
    ensures var s := TakeRequestLine(p, line);
            !s.Wait? && (s.Again? ==> s.next.phase == Headers && s.next.eof && s.next.error.None?)
  {
    hide MatchRequestLine;
  }

  /** Past the request line, the end of the stream never leaves the parser waiting. */
  lemma StepAtEof(p: Parser)
    requires p.eof && p.error.None? && p.phase != RequestLine && p.phase != Complete && p.phase != Failed
    ensures var s := StepOf(p);
            !s.Wait? && (s.Again? ==> s.next.eof && s.next.error.None? && s.next.phase != RequestLine
                                      && s.next.phase != Complete && s.next.phase != Failed)
  {
    hide ReadLine, MatchChunkSize, MatchHeaderLine, FinishHeaders, MatchRequestLine;
    assert forall q: Parser :: FinishesHead(q, FinishHeaders(q)) by {
      forall q: Parser ensures FinishesHead(q, FinishHeaders(q)) { FinishingEnds(q); }
    }
  }

  predicate FinishesHead(p: Parser, s: Step) { !s.Wait? && !s.Again? }

  lemma FinishingEnds(p: Parser)
    ensures FinishesHead(p, FinishHeaders(p))
  {
    hide FramingOf, BuildHead;
  }

  /** At the end of the stream the next event is "need data", and not an error, if and
      only if a message is complete or the request line has not arrived whole: a request
      that is cut off inside its first line is not noticed. */
  lemma {:induction false} EofIsQuietIff(p: Parser)
    requires p.eof && p.error.None? && p.phase != Failed
    ensures NextEvent(p).outcome.NeedsData? <==> EndsQuietly(p)
    decreases |p.buffer|, Rank(p.phase)
  {
    if p.phase == RequestLine {
      LineStepAtEof(p);
      hide StepOf, EndsQuietly;
      if StepOf(p).Again? {
        EofIsQuietIff(StepOf(p).next);
        HeadersAreNotQuiet(StepOf(p).next);
      }
    } else if p.phase != Complete {
      StepAtEof(p);
      hide StepOf;
      if StepOf(p).Again? { EofIsQuietIff(StepOf(p).next); }
    }
  }

  lemma HeadersAreNotQuiet(p: Parser)
    requires p.phase == Headers
    ensures !EndsQuietly(p)
  {
  }

  /** The stream "GET" and nothing more is a quiet end; with its line break behind a
      whole request line, the same cut is an error. */
  lemma CutRequestLineRun(limits: Limits)
    requires limits.maxRequestLine > 14 && limits.maxHeadersSize >= 0
    ensures var p := Feed(Fresh(limits), Ascii("GET")).(eof := true);
            NextEvent(p) == Turn(NeedsData, p) && p.buffer == Ascii("GET")
    ensures var m := RequestLineParts(Ascii("GET"), Ascii("/"), 49, 48);
            var p := Feed(Fresh(limits), PrintRequestLine(m) + CRLF).(eof := true);
            NextEvent(p).outcome == Raised(UnexpectedEof)
  {
    var p := Feed(Fresh(limits), Ascii("GET")).(eof := true);
    assert p.buffer == Ascii("GET");
    ThreeBytesAtEof(p);
    var m := RequestLineParts(Ascii("GET"), Ascii("/"), 49, 48);
    var q := Feed(Fresh(limits), PrintRequestLine(m) + CRLF).(eof := true);
    assert IsRequestLine(m) by { GetIsToken(); }
    assert q.buffer == PrintRequestLine(m) + CRLF + [];
    hide NextEvent;
    LineIsRead(q, m, []);
    EmptyHeadersAtEof(q.(buffer := [], started := true, verb := m.verb, target := m.target, phase := Headers, version := Http10));
  }

  lemma ThreeBytesAtEof(p: Parser)
    requires p.phase == RequestLine && !p.started && p.eof && p.error.None? && p.limits.maxRequestLine >= 3
    requires p.buffer == Ascii("GET")
    ensures NextEvent(p) == Turn(NeedsData, p)
  {
    assert |p.buffer| == 3 && p.buffer[0] == 71 && p.buffer[1] == 69 && p.buffer[2] == 84;
    assert DropBlankLine(p) == p && Without(p.buffer, LF);
    hide Ascii;
    assert IndexOf(p.buffer, LF).None?;
    assert StepOf(p) == StepRequestLine(p) == Wait(p);
  }

  lemma GetIsToken()
    ensures All(Ascii("GET"), IsTokenByte) && Ascii("GET") != Ascii("CONNECT") && All(Ascii("/"), IsTargetByte)
  {
    assert |Ascii("GET")| == 3;
  }

  lemma EmptyHeadersAtEof(p: Parser)
    requires p.phase == Headers && p.eof && p.buffer == [] && p.error.None? && p.headersSize <= p.limits.maxHeadersSize
    ensures NextEvent(p).outcome == Raised(UnexpectedEof)
  {
    assert StepOf(p) == StepHeaders(p) == Fail(p, UnexpectedEof);
  }
}
