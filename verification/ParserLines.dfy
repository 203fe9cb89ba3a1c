/** Single lines: exactly which of them the parser takes, as what, and the status with
    which it refuses the others. */
module ParserLines {
  import opened Bytes
  import opened ParserSpec
  import opened ParserChunks
  import opened ParserHeads
  import opened ParserMessages

  // -- the request line ------------------------------------------------------------------

  /** A line is taken as the parts of which it is the writing, and no other line is. */
  lemma RequestLineIff(line: bytes, m: RequestLineParts)
    ensures MatchRequestLine(line) == Some(m) <==> IsRequestLine(m) && line == PrintRequestLine(m)
  {
    if IsRequestLine(m) && line == PrintRequestLine(m) { RequestLineRoundTrip(m); }
    if MatchRequestLine(line) == Some(m) { TakenIsPrinted(line, m); }
  }

  lemma TakenIsPrinted(line: bytes, m: RequestLineParts)
    requires MatchRequestLine(line) == Some(m)
    ensures IsRequestLine(m) && line == PrintRequestLine(m)
  {
    hide IsTokenByte, IsTargetByte, All, Ascii;
    var i := IndexOf(line, SP).value;
    var rest := line[i + 1..];
    var n := |rest| - 9;
    TailIs(rest[n..], m.major, m.minor);
    CutTwice(line, i, n);
    assert line == m.verb + [SP] + (m.target + VersionText(m));
    hide VersionText;
    assert m.verb + [SP] + (m.target + VersionText(m)) == m.verb + [SP] + m.target + VersionText(m);
  }

  lemma TailIs(tail: bytes, major: byte, minor: byte)
    requires |tail| == 9 && tail[..6] == Ascii(" HTTP/") && tail[6] == major && tail[7] == 46 && tail[8] == minor
    ensures tail == Ascii(" HTTP/") + [major, 46, minor]
  {
    hide Ascii;
    assert tail == tail[..6] + [tail[6], tail[7], tail[8]];
  }

  lemma CutTwice(line: bytes, i: nat, n: nat)
    requires i < |line| && n <= |line[i + 1..]|
    ensures line == line[..i] + [line[i]] + (line[i + 1..][..n] + line[i + 1..][n..])
  {
    assert line[i + 1..] == line[i + 1..][..n] + line[i + 1..][n..];
  }

  ghost predicate IsPrinted(line: bytes, m: RequestLineParts) { IsRequestLine(m) && line == PrintRequestLine(m) }

  /** The status for a whole request line, if it is refused. */
  ghost function LineRefusal(line: bytes, limits: Limits): Option<int> {
    if |line| >= limits.maxRequestLine then Some(414)
    else if forall m :: !IsPrinted(line, m) then Some(400)
    else if forall m :: IsPrinted(line, m) ==> m.major != 49 || (m.minor != 48 && m.minor != 49) then Some(505)
    else if forall m :: IsPrinted(line, m) ==> m.verb == Ascii("CONNECT") then Some(501)
    else None
  }

  /** A whole line where a request line is due: refused with its status, or taken apart. */
  lemma RequestLineIsReadAsWritten(p: Parser, line: bytes, rest: bytes)
    requires Due(p) && line != [] && Without(line, LF) && p.buffer == line + CRLF + rest
    ensures var t := NextEvent(p);
            match LineRefusal(line, p.limits)
            case Some(status) => t.outcome.Raised? && t.outcome.error.Status() == status
            case None =>
              exists m :: IsPrinted(line, m)
                && t == NextEvent(p.(buffer := rest, started := true, verb := m.verb, target := m.target, phase := Headers,
                                     version := if m.minor == 48 then Http10 else Http11))
  {
    hide NextEvent, StepOf, LineRefusal, IsPrinted, TakeRequestLine;
    LineStep(p, line, rest);
    OneStep(p);
    LineIsTaken(p, line, rest);
  }

  lemma LineStep(p: Parser, line: bytes, rest: bytes)
    requires Due(p) && line != [] && Without(line, LF) && p.buffer == line + CRLF + rest
    ensures StepOf(p) == if |line| >= p.limits.maxRequestLine then Fail(p, RequestLineTooLong)
                         else TakeRequestLine(p.(buffer := rest, started := true), line)
  {
    NoBlankLine(p, line, rest);
    LineIsCut(line, rest, p.limits.maxRequestLine, RequestLineTooLong);
    hide ReadLine, TakeRequestLine, Keeps, Advances, StepHeaders, StepBodyLength, StepChunkSize, StepChunkBody, StepChunkCrlf, StepTrailers;
  }

  /** The step behind a line that was cut off. */
  lemma LineIsTaken(p: Parser, line: bytes, rest: bytes)
    ensures var s := if |line| >= p.limits.maxRequestLine then Fail(p, RequestLineTooLong)
                     else TakeRequestLine(p.(buffer := rest, started := true), line);
            match LineRefusal(line, p.limits)
            case Some(status) => s.Raise? && s.next.error.Some? && s.next.error.value.Status() == status
            case None =>
              exists m :: IsPrinted(line, m)
                && s == Again(p.(buffer := rest, started := true, verb := m.verb, target := m.target, phase := Headers,
                                 version := if m.minor == 48 then Http10 else Http11))
  {
    hide MatchRequestLine, IsPrinted, Ascii, Keeps;
    PrintedIs(line);
  }

  lemma OneStep(p: Parser)
    requires p.error.None?
    ensures match StepOf(p)
            case Again(next) => NextEvent(p) == NextEvent(next)
            case Raise(next) => next.error.Some? && NextEvent(p).outcome == Raised(next.error.value)
            case _ => true
  {
    assert Keeps(p, StepOf(p));
    hide StepOf;
  }

  lemma NoBlankLine(p: Parser, line: bytes, rest: bytes)
    requires line != [] && Without(line, LF) && p.buffer == line + CRLF + rest
    ensures DropBlankLine(p) == p && p.buffer != []
  {
    assert p.buffer[1] == if |line| > 1 then line[1] else CR;
  }

  /** A whole line is cut off, or it is too long. */
  lemma LineIsCut(line: bytes, rest: bytes, maxSize: int, tooLong: ParserError)
    requires Without(line, LF)
    ensures ReadLine(line + CRLF + rest, maxSize, tooLong) ==
            if |line| >= maxSize then BadLine(tooLong, line + CRLF + rest) else Line(line, rest)
  {
    IndexOfIs(line + CRLF + rest, LF, |line| + 1);
    if |line| < maxSize { ReadsLine(line, rest, maxSize, tooLong); }
  }

  /** The only parts of which a line can be the writing. */
  lemma PrintedIs(line: bytes)
    ensures match MatchRequestLine(line)
            case None => forall m :: !IsPrinted(line, m)
            case Some(parts) => IsPrinted(line, parts) && forall m :: IsPrinted(line, m) ==> m == parts
  {
    forall m ensures IsPrinted(line, m) <==> MatchRequestLine(line) == Some(m) { RequestLineIff(line, m); }
    hide MatchRequestLine, IsPrinted;
  }

  // -- a field line ---------------------------------------------------------------------------

  predicate AllBlank(s: bytes) { forall i :: 0 <= i < |s| ==> s[i] == SP || s[i] == TAB }

  /** The writing of a field, with blanks around its value where the client put them. */
  ghost predicate IsWritten(line: bytes, h: Header) {
    IsField(h) && exists a, b :: AllBlank(a) && AllBlank(b) && line == h.name + [58] + a + h.value + b
  }

  lemma {:induction false} LeftBlanks(s: bytes) returns (a: bytes)
    ensures var t := TrimBlanksLeft(s); AllBlank(a) && s == a + t && (t != [] ==> t[0] != SP && t[0] != TAB)
    decreases |s|
  {
    if s != [] && (s[0] == SP || s[0] == TAB) {
      var b := LeftBlanks(s[1..]);
      a := [s[0]] + b;
      assert s == a + TrimBlanksLeft(s);
    } else {
      a := [];
    }
  }

  lemma {:induction false} RightBlanks(s: bytes) returns (b: bytes)
    ensures var t := TrimBlanksRight(s); AllBlank(b) && s == t + b && (t != [] ==> t[|t| - 1] != SP && t[|t| - 1] != TAB)
    decreases |s|
  {
    if s != [] && (s[|s| - 1] == SP || s[|s| - 1] == TAB) {
      var a := RightBlanks(s[..|s| - 1]);
      b := a + [s[|s| - 1]];
      assert s == TrimBlanksRight(s) + b;
    } else {
      b := [];
    }
  }

  /** Blanks go, and nothing else. */
  lemma {:induction false} BlanksGoLeft(a: bytes, s: bytes)
    requires AllBlank(a) && (s != [] ==> s[0] != SP && s[0] != TAB)
    ensures TrimBlanksLeft(a + s) == s
    decreases |a|
  {
    if a == [] {
      assert a + s == s;
    } else {
      assert (a + s)[1..] == a[1..] + s;
      BlanksGoLeft(a[1..], s);
    }
  }

  lemma {:induction false} BlanksGoRight(s: bytes, b: bytes)
    requires AllBlank(b) && (s != [] ==> s[|s| - 1] != SP && s[|s| - 1] != TAB)
    ensures TrimBlanksRight(s + b) == s
    decreases |b|
  {
    if b == [] {
      assert s + b == s;
    } else {
      var n := |b| - 1;
      assert (s + b)[..|s| + n] == s + b[..n] && (s + b)[|s| + n] == b[n];
      BlanksGoRight(s, b[..n]);
    }
  }

  lemma ValueIsTrimmed(value: bytes, a: bytes, b: bytes)
    requires AllBlank(a) && AllBlank(b)
    requires value != [] ==> value[0] != SP && value[0] != TAB && value[|value| - 1] != SP && value[|value| - 1] != TAB
    ensures TrimBlanksRight(TrimBlanksLeft(a + value + b)) == value
  {
    hide TrimBlanksLeft, TrimBlanksRight;
    if value == [] {
      assert a + value + b == (a + b) + [];
      BlanksGoLeft(a + b, []);
      BlanksGoRight([], []);
      assert [] + [] == value;
    } else {
      assert a + value + b == a + (value + b);
      BlanksGoLeft(a, value + b);
      BlanksGoRight(value, b);
    }
  }

  lemma TrimIsIdle(s: bytes)
    requires s != [] ==> s[0] != SP && s[0] != TAB && s[|s| - 1] != SP && s[|s| - 1] != TAB
    ensures TrimBlanksRight(TrimBlanksLeft(s)) == s
  {
    assert AllBlank([]) && [] + s + [] == s;
    ValueIsTrimmed(s, [], []);
  }

  /** What is left of a value has no blanks around it, and only blanks went. */
  lemma TrimmedIs(s: bytes) returns (a: bytes, b: bytes)
    ensures var t := TrimBlanksRight(TrimBlanksLeft(s));
            && AllBlank(a) && AllBlank(b) && s == a + t + b
            && (t != [] ==> t[0] != SP && t[0] != TAB && t[|t| - 1] != SP && t[|t| - 1] != TAB)
  {
    a := LeftBlanks(s);
    b := RightBlanks(TrimBlanksLeft(s));
    hide TrimBlanksLeft, TrimBlanksRight;
    var u := TrimBlanksLeft(s);
    Regroup(a, TrimBlanksRight(u), b);
    if TrimBlanksRight(u) != [] { assert TrimBlanksRight(u)[0] == u[0]; }
  }

  /** A line is taken as the field of which it is the writing, and no other line is. */
  lemma FieldLineIff(line: bytes, h: Header)
    ensures MatchHeaderLine(line) == Some(h) <==> IsWritten(line, h)
  {
    hide IsTokenByte;
    if MatchHeaderLine(line) == Some(h) { TakenIsWritten(line, h); }
    if IsWritten(line, h) {
      var a, b :| AllBlank(a) && AllBlank(b) && line == h.name + [58] + a + h.value + b;
      WrittenIsTaken(line, h, a, b);
    }
  }

  lemma TakenIsWritten(line: bytes, h: Header)
    requires MatchHeaderLine(line) == Some(h)
    ensures IsWritten(line, h)
  {
    hide IsTokenByte, TrimBlanksLeft, TrimBlanksRight;
    var i := IndexOf(line, 58).value;
    var value := line[i + 1..];
    var a, b := TrimmedIs(value);
    TrimIsIdle(h.value);
    assert line == line[..i] + [58] + value;
    assert line == h.name + [58] + a + h.value + b;
    forall k | 0 <= k < |h.value| ensures IsFieldByte(h.value[k]) { assert h.value[k] == value[|a| + k]; }
  }

  lemma WrittenIsTaken(line: bytes, h: Header, a: bytes, b: bytes)
    requires IsField(h) && AllBlank(a) && AllBlank(b) && line == h.name + [58] + a + h.value + b
    ensures MatchHeaderLine(line) == Some(h)
  {
    TokensAreVisible(h.name);
    TrimmedEnds(h.value);
    hide IsTokenByte, TrimBlanksLeft, TrimBlanksRight;
    IndexOfIs(line, 58, |h.name|);
    assert line[..|h.name|] == h.name && line[|h.name| + 1..] == a + h.value + b;
    ValueIsTrimmed(h.value, a, b);
    forall k | 0 <= k < |a + h.value + b| ensures IsFieldByte((a + h.value + b)[k]) { }
  }

  /** The only field of which a line can be the writing. */
  lemma FieldIs(line: bytes)
    ensures match MatchHeaderLine(line)
            case None => forall h :: !IsWritten(line, h)
            case Some(field) => IsWritten(line, field) && forall h :: IsWritten(line, h) ==> h == field
  {
    forall h ensures IsWritten(line, h) <==> MatchHeaderLine(line) == Some(h) { FieldLineIff(line, h); }
    hide MatchHeaderLine, IsWritten;
  }

  /** The status for a field line, if it is refused. */
  ghost function FieldRefusal(line: bytes, limits: Limits, size: nat, count: nat): Option<int> {
    if |line| >= limits.maxHeadersSize - size then Some(431)
    else if [SP] <= line || [TAB] <= line || forall h :: !IsWritten(line, h) then Some(400)
    else if count >= limits.maxHeaderCount then Some(431)
    else None
  }

  lemma FieldLineIsReadAsWritten(p: Parser, line: bytes, rest: bytes)
    requires p.phase == Headers && p.error.None? && line != [] && Without(line, LF) && p.buffer == line + CRLF + rest
    ensures var t := NextEvent(p);
            match FieldRefusal(line, p.limits, p.headersSize, |p.headers|)
            case Some(status) => t.outcome.Raised? && t.outcome.error.Status() == status
            case None =>
              exists h :: IsWritten(line, h)
                && t == NextEvent(p.(buffer := rest, headersSize := p.headersSize + |line| + 2,
                                     headers := p.headers + [Header(Lower(h.name), h.value)]))
  {
    hide NextEvent, StepOf, FieldRefusal, IsWritten, TakeHeaderLine;
    FieldStep(p, line, rest);
    OneStep(p);
    FieldIsRefusedOrTaken(p, line, rest);
  }

  lemma FieldStep(p: Parser, line: bytes, rest: bytes)
    requires p.phase == Headers && Without(line, LF) && p.buffer == line + CRLF + rest
    ensures StepOf(p) == if |line| >= p.limits.maxHeadersSize - p.headersSize then Fail(p, HeadersTooLarge)
                         else TakeHeaderLine(p.(buffer := rest, headersSize := p.headersSize + |line| + 2), line)
  {
    var room := p.limits.maxHeadersSize - p.headersSize;
    LineIsCut(line, rest, room, HeadersTooLarge);
    hide ReadLine, TakeHeaderLine, StepOf;
    if |line| >= room { FieldStepFails(p, HeadersTooLarge); } else { StepTakesLine(p, line, rest); }
  }

  lemma FieldStepFails(p: Parser, e: ParserError)
    requires p.phase == Headers && ReadLine(p.buffer, p.limits.maxHeadersSize - p.headersSize, HeadersTooLarge) == BadLine(e, p.buffer)
    ensures StepOf(p) == Fail(p, e)
  {
    hide ReadLine, TakeHeaderLine, Keeps, Advances;
  }

  lemma FieldIsRefusedOrTaken(p: Parser, line: bytes, rest: bytes)
    requires line != []
    ensures var s := if |line| >= p.limits.maxHeadersSize - p.headersSize then Fail(p, HeadersTooLarge)
                     else TakeHeaderLine(p.(buffer := rest, headersSize := p.headersSize + |line| + 2), line);
            match FieldRefusal(line, p.limits, p.headersSize, |p.headers|)
            case Some(status) => s.Raise? && s.next.error.Some? && s.next.error.value.Status() == status
            case None =>
              exists h :: IsWritten(line, h)
                && s == Again(p.(buffer := rest, headersSize := p.headersSize + |line| + 2,
                                 headers := p.headers + [Header(Lower(h.name), h.value)]))
  {
    hide MatchHeaderLine, IsWritten, FinishHeaders, Lower, Keeps;
    FieldIs(line);
  }

  // -- a chunk-size line -----------------------------------------------------------------------

  predicate IsHexDigit(b: byte) { 48 <= b <= 57 || 65 <= b <= 70 || 97 <= b <= 102 }

  /** The number that hexadecimal digits stand for, in either case. */
  function Hex(s: bytes): nat
    requires forall i :: 0 <= i < |s| ==> IsHexDigit(s[i])
  {
    if s == [] then 0
    else
      assert IsHexDigit(s[|s| - 1]);
      var b: int := s[|s| - 1];
      16 * Hex(s[..|s| - 1]) + if b <= 57 then b - 48 else if b <= 70 then b - 65 + 10 else b - 97 + 10
  }

  /** Digits, and then nothing or an extension. */
  predicate IsSizeLine(line: bytes, k: int) {
    && 1 <= k <= 16 && k <= |line| && (forall i :: 0 <= i < k ==> IsHexDigit(line[i]))
    && (k == |line| || (line[k] == 59 && All(line[k + 1..], IsFieldByte)))
  }

  lemma {:induction false} HexIs(s: bytes)
    requires s != [] && forall i :: 0 <= i < |s| ==> IsHexDigit(s[i])
    ensures IsNumeral(s, 16) && NumeralValue(s, 16) == Hex(s)
    decreases |s|
  {
    if |s| > 1 { HexIs(s[..|s| - 1]); } else { assert Hex(s[..0]) == 0; }
  }

  /** A size that is printed as the `x` format prints it. */
  lemma PrintedIsHex(n: nat)
    ensures var s := Numeral(n, 16); (forall i :: 0 <= i < |s| ==> IsHexDigit(s[i])) && Hex(s) == n
  {
    NumeralRoundTrip(n, 16);
    var s := Numeral(n, 16);
    forall i | 0 <= i < |s| ensures IsHexDigit(s[i]) { assert DigitValue(s[i]).Some?; }
    HexIs(s);
  }

  lemma {:induction false} PrefixIs(line: bytes, k: nat)
    requires k <= |line| && (forall i :: 0 <= i < k ==> IsHexDigit(line[i])) && (k < |line| ==> !IsHexDigit(line[k]))
    ensures HexPrefix(line) == k
    decreases |line|
  {
    if k > 0 {
      assert forall i :: 0 <= i < k - 1 ==> line[1..][i] == line[i + 1];
      PrefixIs(line[1..], k - 1);
    }
  }

  lemma {:induction false} PrefixEnds(line: bytes)
    ensures var k := HexPrefix(line);
            k <= |line| && (forall i :: 0 <= i < k ==> IsHexDigit(line[i])) && (k < |line| ==> !IsHexDigit(line[k]))
    decreases |line|
  {
    if line != [] && DigitValue(line[0]).Some? {
      PrefixEnds(line[1..]);
      assert forall i :: 0 <= i < HexPrefix(line[1..]) ==> line[1..][i] == line[i + 1];
    }
  }

  /** A size line is taken as the number its digits stand for, and no other line is. */
  lemma ChunkLineIff(line: bytes, n: nat)
    ensures MatchChunkSize(line) == Some(n) <==> exists k :: IsSizeLine(line, k) && Hex(line[..k]) == n
  {
    PrefixEnds(line);
    var k := HexPrefix(line);
    if 1 <= k <= 16 { HexIs(line[..k]); }
    hide HexPrefix, NumeralValue, Hex;
    forall j | IsSizeLine(line, j) ensures j == k { PrefixIs(line, j); }
    assert MatchChunkSize(line).Some? <==> IsSizeLine(line, k);
  }

  /** A whole size line: refused with its status, or counted. */
  lemma ChunkLineIsReadAsWritten(p: Parser, line: bytes, rest: bytes)
    requires p.phase == ChunkSize && p.error.None? && Without(line, LF) && p.buffer == line + CRLF + rest
    ensures var t := NextEvent(p);
            if |line| >= p.limits.maxChunkLine || forall k :: !IsSizeLine(line, k) then
              t.outcome.Raised? && t.outcome.error.Status() == 400
            else
              exists k :: IsSizeLine(line, k) &&
                var n := Hex(line[..k]);
                if n == 0 then t == NextEvent(p.(buffer := rest, phase := Trailers))
                else if p.limits.maxBodySize.Some? && p.bodySize + n > p.limits.maxBodySize.value then
                  t.outcome.Raised? && t.outcome.error.Status() == 413
                else t == NextEvent(p.(buffer := rest, bodySize := p.bodySize + n, chunkRemaining := n, phase := ChunkBody))
  {
    hide NextEvent, StepOf, IsSizeLine, TakeChunkSize, Hex;
    SizeStep(p, line, rest);
    OneStep(p);
    SizeIsTaken(p, line, rest);
  }

  lemma SizeStep(p: Parser, line: bytes, rest: bytes)
    requires p.phase == ChunkSize && Without(line, LF) && p.buffer == line + CRLF + rest
    ensures StepOf(p) == if |line| >= p.limits.maxChunkLine then Fail(p, ChunkLineTooLong)
                         else TakeChunkSize(p.(buffer := rest), line)
  {
    LineIsCut(line, rest, p.limits.maxChunkLine, ChunkLineTooLong);
    hide ReadLine, TakeChunkSize, Keeps, Advances, StepRequestLine, StepHeaders, StepBodyLength, StepChunkBody, StepChunkCrlf, StepTrailers;
  }

  lemma SizeIsTaken(p: Parser, line: bytes, rest: bytes)
    ensures var s := if |line| >= p.limits.maxChunkLine then Fail(p, ChunkLineTooLong) else TakeChunkSize(p.(buffer := rest), line);
            if |line| >= p.limits.maxChunkLine || forall k :: !IsSizeLine(line, k) then
              s.Raise? && s.next.error.Some? && s.next.error.value.Status() == 400
            else
              exists k :: IsSizeLine(line, k) &&
                var n := Hex(line[..k]);
                if n == 0 then s == Again(p.(buffer := rest, phase := Trailers))
                else if p.limits.maxBodySize.Some? && p.bodySize + n > p.limits.maxBodySize.value then
                  s.Raise? && s.next.error.Some? && s.next.error.value.Status() == 413
                else s == Again(p.(buffer := rest, bodySize := p.bodySize + n, chunkRemaining := n, phase := ChunkBody))
  {
    CountedIff(line);
    hide MatchChunkSize, Hex, IsSizeLine, Keeps;
    if MatchChunkSize(line).Some? { var k :| IsSizeLine(line, k) && HexOf(line, k) == MatchChunkSize(line).value; }
  }

  function HexOf(line: bytes, k: int): nat
    requires IsSizeLine(line, k)
  {
    Hex(line[..k])
  }

  lemma CountedIff(line: bytes)
    ensures match MatchChunkSize(line)
            case None => forall k :: !IsSizeLine(line, k)
            case Some(n) => exists k :: IsSizeLine(line, k) && HexOf(line, k) == n
  {
    hide Hex;
    if MatchChunkSize(line).Some? {
      ChunkLineIff(line, MatchChunkSize(line).value);
      var k :| IsSizeLine(line, k) && Hex(line[..k]) == MatchChunkSize(line).value;
      assert HexOf(line, k) == Hex(line[..k]);
    }
    forall k | IsSizeLine(line, k) ensures MatchChunkSize(line).Some? { SizeLineCounts(line, k); }
    hide MatchChunkSize;
  }

  lemma SizeLineCounts(line: bytes, k: int)
    requires IsSizeLine(line, k)
    ensures MatchChunkSize(line) == Some(Hex(line[..k]))
  {
    ChunkLineIff(line, Hex(line[..k]));
  }

  // -- the other lines ---------------------------------------------------------------------------

  /** Behind the bytes of a chunk stands an empty line. */
  lemma LineBehindChunkIsEmpty(p: Parser, line: bytes, rest: bytes)
    requires p.phase == ChunkCrlf && p.error.None? && Without(line, LF) && p.buffer == line + CRLF + rest
    ensures var t := NextEvent(p);
            if line == [] then t == NextEvent(p.(buffer := rest, phase := ChunkSize))
            else t.outcome.Raised? && t.outcome.error.Status() == 400
  {
    hide NextEvent, StepOf;
    CrlfStep(p, line, rest);
    OneStep(p);
  }

  lemma CrlfStep(p: Parser, line: bytes, rest: bytes)
    requires p.phase == ChunkCrlf && Without(line, LF) && p.buffer == line + CRLF + rest
    ensures StepOf(p) == if |line| >= 2 then Fail(p, ChunkNotTerminated)
                         else if line != [] then Fail(p.(buffer := rest), ChunkNotTerminated)
                         else Again(p.(buffer := rest, phase := ChunkSize))
  {
    LineIsCut(line, rest, 2, ChunkNotTerminated);
    hide ReadLine, Keeps, Advances, StepRequestLine, StepHeaders, StepBodyLength, StepChunkSize, StepChunkBody, StepTrailers;
  }

  /** A trailer line is refused with its status, or dropped; the empty one ends the message. */
  lemma TrailerLineIsReadAsWritten(p: Parser, line: bytes, rest: bytes)
    requires p.phase == Trailers && p.error.None? && Without(line, LF) && p.buffer == line + CRLF + rest
    ensures var t, q := NextEvent(p), p.(buffer := rest, headersSize := p.headersSize + |line| + 2);
            if |line| >= p.limits.maxHeadersSize - p.headersSize then t.outcome.Raised? && t.outcome.error.Status() == 431
            else if line == [] then t == Turn(Got(EndOfMessage), q.(phase := Complete))
            else if forall h :: !IsWritten(line, h) then t.outcome.Raised? && t.outcome.error.Status() == 400
            else t == NextEvent(q)
  {
    hide StepOf, IsWritten, MatchHeaderLine, Keeps;
    TrailerLineStep(p, line, rest);
    OneStep(p);
    FieldIs(line);
  }

  lemma TrailerLineStep(p: Parser, line: bytes, rest: bytes)
    requires p.phase == Trailers && Without(line, LF) && p.buffer == line + CRLF + rest
    ensures var q := p.(buffer := rest, headersSize := p.headersSize + |line| + 2);
            StepOf(p) == if |line| >= p.limits.maxHeadersSize - p.headersSize then Fail(p, HeadersTooLarge)
                         else if line == [] then Emit(EndOfMessage, q.(phase := Complete))
                         else if MatchHeaderLine(line).None? then Fail(q, MalformedTrailer)
                         else Again(q)
  {
    var room := p.limits.maxHeadersSize - p.headersSize;
    LineIsCut(line, rest, room, HeadersTooLarge);
    hide ReadLine, StepOf, MatchHeaderLine;
    if |line| >= room { TrailerFails(p, HeadersTooLarge); } else { TrailerIsTaken(p, line, rest); }
  }

  lemma TrailerFails(p: Parser, e: ParserError)
    requires p.phase == Trailers && ReadLine(p.buffer, p.limits.maxHeadersSize - p.headersSize, HeadersTooLarge) == BadLine(e, p.buffer)
    ensures StepOf(p) == Fail(p, e)
  {
    hide ReadLine, MatchHeaderLine, Keeps, Advances, StepRequestLine, StepHeaders, StepBodyLength, StepChunkSize, StepChunkBody, StepChunkCrlf;
  }

  lemma TrailerIsTaken(p: Parser, line: bytes, rest: bytes)
    requires p.phase == Trailers
    requires ReadLine(p.buffer, p.limits.maxHeadersSize - p.headersSize, HeadersTooLarge) == Line(line, rest)
    ensures var q := p.(buffer := rest, headersSize := p.headersSize + |line| + 2);
            StepOf(p) == if line == [] then Emit(EndOfMessage, q.(phase := Complete))
                         else if MatchHeaderLine(line).None? then Fail(q, MalformedTrailer)
                         else Again(q)
  {
    hide ReadLine, MatchHeaderLine, Keeps, Advances, StepRequestLine, StepHeaders, StepBodyLength, StepChunkSize, StepChunkBody, StepChunkCrlf;
  }

  // -- the bytes of names, targets and values (RFC 9110, sections 5.5 and 5.6.2) -------------------

  /** The visible characters that separate tokens. */
  predicate IsDelimiter(b: byte) {
    b in [34, 40, 41, 44, 47, 58, 59, 60, 61, 62, 63, 64, 91, 92, 93, 123, 125]
  }

  predicate IsControl(b: byte) { b < 32 || b == 127 }

  /** Names are of visible characters without the delimiters; values have no control bytes
      but the tab; targets have neither control bytes nor blanks. */
  lemma BytesAreClassed(b: byte)
    ensures IsTokenByte(b) <==> 33 <= b <= 126 && !IsDelimiter(b)
    ensures IsFieldByte(b) <==> b == 9 || !IsControl(b)
    ensures IsTargetByte(b) <==> b != 32 && !IsControl(b)
  {
    assert Ascii("!#$%&'*+-.^_`|~") == [33, 35, 36, 37, 38, 39, 42, 43, 45, 46, 94, 95, 96, 124, 126];
  }
}
