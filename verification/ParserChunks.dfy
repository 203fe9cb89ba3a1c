/** The chunked coding (section 7.1 of RFC 9112): the response writer's chunks, and
    the parser's chunk states as their reader. */
module ParserChunks {
  import opened Bytes
  import opened ParserSpec

  /** What `RequestCycle.send` writes for one non-empty body in chunked mode. */
  function EncodeChunk(body: bytes): bytes { Numeral(|body|, 16) + CRLF + body + CRLF }

  /** Empty bodies write nothing; the last message adds the zero chunk. */
  function EncodeChunks(bodies: seq<bytes>): bytes {
    if bodies == [] then []
    else (if bodies[0] == [] then [] else EncodeChunk(bodies[0])) + EncodeChunks(bodies[1..])
  }

  const LAST_CHUNK: bytes := Ascii("0") + CRLF + CRLF

  function Bodies(bodies: seq<bytes>): seq<Event> {
    if bodies == [] then []
    else (if bodies[0] == [] then [] else [BodyData(bodies[0])]) + Bodies(bodies[1..])
  }

  function Sizes(bodies: seq<bytes>): nat { if bodies == [] then 0 else |bodies[0]| + Sizes(bodies[1..]) }

  predicate ChunkLengthsFit(bodies: seq<bytes>) { forall i :: 0 <= i < |bodies| ==> |bodies[i]| < Power(16, 16) }

  /** The limits leave room for `n` more body bytes and an empty trailer section. */
  predicate HasRoom(p: Parser, n: nat) {
    && p.limits.maxChunkLine >= 17 && p.headersSize + 1 <= p.limits.maxHeadersSize
    && (p.limits.maxBodySize.Some? ==> p.bodySize + n <= p.limits.maxBodySize.value)
  }

  // -- one line at a time ---------------------------------------------------------

  lemma ReadsLine(line: bytes, rest: bytes, maxSize: int, tooLong: ParserError)
    requires Without(line, LF) && |line| + 1 <= maxSize
    ensures ReadLine(line + CRLF + rest, maxSize, tooLong) == Line(line, rest)
  {
    var b := line + CRLF + rest;
    IndexOfIs(b, LF, |line| + 1);
    assert b[..|line|] == line && b[|line| + 2..] == rest;
  }

  lemma HexPrefixOfNumeral(s: bytes)
    requires IsNumeral(s, 16)
    ensures HexPrefix(s) == |s|
  {
    if |s| > 1 {
      assert forall i :: 0 <= i < |s| - 1 ==> s[1..][i] == s[i + 1];
      HexPrefixOfNumeral(s[1..]);
    } else {
      assert HexPrefix(s[1..]) == 0;
    }
  }

  lemma ChunkSizeRoundTrip(n: nat)
    requires n < Power(16, 16)
    ensures MatchChunkSize(Numeral(n, 16)) == Some(n)
    ensures |Numeral(n, 16)| <= 16 && Without(Numeral(n, 16), LF)
  {
    hide Power;
    NumeralRoundTrip(n, 16);
    NumeralLength(n, 16, 16);
    var s := Numeral(n, 16);
    HexPrefixOfNumeral(s);
    assert s[..|s|] == s;
    assert forall i :: 0 <= i < |s| ==> DigitValue(s[i]).Some?;
  }

  // -- one chunk ---------------------------------------------------------------

  /** Past the chunk whose body is `body`. */
  function PastChunk(p: Parser, body: bytes, rest: bytes): Parser {
    p.(buffer := rest, bodySize := p.bodySize + |body|, chunkRemaining := 0, phase := ChunkSize)
  }

  lemma SizeLineStep(p: Parser, n: nat, rest: bytes)
    requires p.phase == ChunkSize && p.error.None? && n < Power(16, 16) && HasRoom(p, n)
    requires p.buffer == Numeral(n, 16) + CRLF + rest
    ensures StepOf(p) == Again(if n == 0 then p.(buffer := rest, phase := Trailers)
                               else p.(buffer := rest, bodySize := p.bodySize + n, chunkRemaining := n, phase := ChunkBody))
  {
    hide ReadLine, MatchChunkSize, Power;
    ChunkSizeRoundTrip(n);
    ReadsLine(Numeral(n, 16), rest, p.limits.maxChunkLine, ChunkLineTooLong);
  }

  lemma ChunkBodySteps(p: Parser, body: bytes, rest: bytes)
    requires p.phase == ChunkBody && p.error.None? && body != [] && p.chunkRemaining == |body|
    requires p.buffer == body + CRLF + rest
    ensures var done := p.(buffer := CRLF + rest, chunkRemaining := 0);
            && StepOf(p) == Emit(BodyData(body), done)
            && StepOf(done) == Again(done.(phase := ChunkCrlf))
            && StepOf(done.(phase := ChunkCrlf)) == Again(done.(phase := ChunkSize, buffer := rest))
  {
    hide ReadLine, StepRequestLine, StepHeaders, StepBodyLength, StepChunkSize, StepTrailers;
    assert p.buffer[..|body|] == body && p.buffer[|body|..] == CRLF + rest;
    ReadsLine([], rest, 2, ChunkNotTerminated);
    assert [] + CRLF + rest == CRLF + rest;
  }

  lemma DrainChunk(p: Parser, body: bytes, rest: bytes, serial: bool)
    requires p.phase == ChunkSize && p.error.None? && body != [] && |body| < Power(16, 16) && HasRoom(p, |body|)
    requires p.buffer == EncodeChunk(body) + rest
    ensures var after := Drain(PastChunk(p, body, rest), serial);
            Drain(p, serial) == Drained([BodyData(body)] + after.events, after.next)
  {
    hide StepOf, Power, HasRoom;
    assert p.buffer == Numeral(|body|, 16) + CRLF + (body + CRLF + rest);
    SizeLineStep(p, |body|, body + CRLF + rest);
    var q := StepOf(p).next;
    ChunkBodySteps(q, body, rest);
    assert Drain(p, serial) == Drain(q, serial);
    var done := q.(buffer := CRLF + rest, chunkRemaining := 0);
    assert Drain(done, serial) == Drain(done.(phase := ChunkCrlf), serial);
    assert Drain(done.(phase := ChunkCrlf), serial) == Drain(done.(phase := ChunkSize, buffer := rest), serial);
    assert done.(phase := ChunkSize, buffer := rest) == PastChunk(p, body, rest);
  }

  // -- the whole body ---------------------------------------------------------------

  /** Past a whole chunked body of `n` bytes and its empty trailer section. */
  function PastBody(p: Parser, n: nat, rest: bytes): Parser {
    p.(buffer := rest, bodySize := p.bodySize + n, chunkRemaining := 0,
       headersSize := p.headersSize + 2, phase := Complete)
  }

  lemma DrainLastChunk(p: Parser, rest: bytes, serial: bool)
    requires p.phase == ChunkSize && p.error.None? && p.chunkRemaining == 0 && HasRoom(p, 0)
    requires p.buffer == LAST_CHUNK + rest
    ensures var after := Drain(PastBody(p, 0, rest), serial);
            Drain(p, serial) == Drained([EndOfMessage] + after.events, after.next)
  {
    LastChunkIs(rest);
    assert 0 < Power(16, 16) by { PowerPositive(16, 16); }
    hide Power, Numeral, ReadLine, LAST_CHUNK;
    SizeLineStep(p, 0, CRLF + rest);
    var q := p.(buffer := CRLF + rest, phase := Trailers);
    EmptyTrailers(q, rest);
    assert q.(buffer := rest, headersSize := q.headersSize + 2, phase := Complete) == PastBody(p, 0, rest);
    hide StepOf;
    assert Drain(p, serial) == Drain(q, serial);
  }

  lemma LastChunkIs(rest: bytes)
    ensures LAST_CHUNK + rest == Numeral(0, 16) + CRLF + (CRLF + rest)
  {
    assert Numeral(0, 16) == Ascii("0");
  }

  lemma EmptyTrailers(q: Parser, rest: bytes)
    requires q.phase == Trailers && q.error.None? && q.buffer == CRLF + rest
    requires q.limits.maxHeadersSize - q.headersSize >= 1
    ensures StepOf(q) == Emit(EndOfMessage, q.(buffer := rest, headersSize := q.headersSize + 2, phase := Complete))
  {
    hide StepRequestLine, StepHeaders, StepBodyLength, StepChunkSize, StepChunkBody, StepChunkCrlf, MatchHeaderLine;
    ReadsLine([], rest, q.limits.maxHeadersSize - q.headersSize, HeadersTooLarge);
    hide ReadLine;
    assert [] + CRLF + rest == CRLF + rest;
  }

  lemma PowerPositive(base: nat, k: nat)
    requires base > 0
    ensures Power(base, k) > 0
  {
  }

  /** The first body of a chunked message, up to the rest of it. */
  lemma DrainFirst(p: Parser, bodies: seq<bytes>, rest: bytes, serial: bool)
    requires p.phase == ChunkSize && p.error.None? && p.chunkRemaining == 0 && bodies != []
    requires ChunkLengthsFit(bodies) && HasRoom(p, Sizes(bodies))
    requires p.buffer == EncodeChunks(bodies) + LAST_CHUNK + rest
    ensures var tail := EncodeChunks(bodies[1..]) + LAST_CHUNK + rest;
            var after := Drain(Past(p, bodies[0], tail), serial);
            Drain(p, serial) == Drained(Bodies([bodies[0]]) + after.events, after.next)
  {
    var body, tail := bodies[0], EncodeChunks(bodies[1..]) + LAST_CHUNK + rest;
    FirstChunk(bodies, LAST_CHUNK, rest);
    BodiesOfOne(body);
    hide Drain, LAST_CHUNK, EncodeChunks, EncodeChunk, Sizes, Bodies;
    if body == [] {
      assert p.(buffer := tail) == p;
      var d := Drain(p, serial);
      assert [] + d.events == d.events;
    } else {
      DrainChunk(p, body, tail, serial);
    }
  }

  lemma FirstChunk(bodies: seq<bytes>, last: bytes, rest: bytes)
    requires bodies != []
    ensures var tail := EncodeChunks(bodies[1..]) + last + rest;
            EncodeChunks(bodies) + last + rest == if bodies[0] == [] then tail else EncodeChunk(bodies[0]) + tail
    ensures Sizes(bodies) >= |bodies[0]|
    ensures ChunkLengthsFit(bodies) ==> |bodies[0]| < Power(16, 16)
  {
    hide EncodeChunk, Power;
  }

  lemma BodiesOfOne(body: bytes)
    ensures Bodies([body]) == if body == [] then [] else [BodyData(body)]
  {
    var none: seq<bytes> := [];
    assert [body][1..] == none;
  }

  /** Past one body, which takes no chunk if it is empty. */
  function Past(p: Parser, body: bytes, tail: bytes): Parser {
    if body == [] then p.(buffer := tail) else PastChunk(p, body, tail)
  }

  lemma BodiesCons(bodies: seq<bytes>)
    requires bodies != []
    ensures Bodies(bodies) == Bodies([bodies[0]]) + Bodies(bodies[1..])
    ensures Sizes(bodies) == |bodies[0]| + Sizes(bodies[1..])
  {
    var none: seq<bytes> := [];
    assert [bodies[0]][1..] == none;
  }

  /** What the response writer sends in chunks, the chunk states read back: exactly
      the bodies, one end, and the bytes behind them untouched. */
  lemma {:induction false} ChunkedRoundTrip(p: Parser, bodies: seq<bytes>, rest: bytes, serial: bool)
    requires p.phase == ChunkSize && p.error.None? && p.chunkRemaining == 0
    requires ChunkLengthsFit(bodies) && HasRoom(p, Sizes(bodies))
    requires p.buffer == EncodeChunks(bodies) + LAST_CHUNK + rest
    ensures var after := Drain(PastBody(p, Sizes(bodies), rest), serial);
            Drain(p, serial) == Drained(Bodies(bodies) + [EndOfMessage] + after.events, after.next)
    decreases |bodies|
  {
    hide Drain, StepOf, EncodeChunk, LAST_CHUNK;
    if bodies == [] {
      assert p.buffer == LAST_CHUNK + rest;
      DrainLastChunk(p, rest, serial);
      var after := Drain(PastBody(p, 0, rest), serial);
      assert Bodies(bodies) + [EndOfMessage] + after.events == [EndOfMessage] + after.events;
    } else {
      var q := Past(p, bodies[0], EncodeChunks(bodies[1..]) + LAST_CHUNK + rest);
      DrainFirst(p, bodies, rest, serial);
      BodiesCons(bodies);
      ChunkedRoundTrip(q, bodies[1..], rest, serial);
      assert PastBody(q, Sizes(bodies[1..]), rest) == PastBody(p, Sizes(bodies), rest);
      hide Bodies, Sizes, EncodeChunks;
      var after := Drain(PastBody(p, Sizes(bodies), rest), serial);
      assert Bodies([bodies[0]]) + (Bodies(bodies[1..]) + [EndOfMessage] + after.events)
          == Bodies([bodies[0]]) + Bodies(bodies[1..]) + [EndOfMessage] + after.events;
    }
  }
}
