/** Exactly when the HTTP parser is independent of the cut: what a step consumes
    decides it, so the one stream that is read in two ways is the one with two
    empty lines where a request line is due. */
module ParserExact {
  import opened Bytes
  import opened ParserSpec
  import opened ParserSplit

  function Truncate(p: Parser, n: nat): Parser
    requires n <= |p.buffer|
  {
    p.(buffer := p.buffer[..n])
  }

  /** How many bytes a step takes off the buffer. */
  function Consumed(p: Parser): nat
    requires StepOf(p).Again? || StepOf(p).Emit?
  {
    hide StepOf; assert Advances(p, StepOf(p));
    |p.buffer| - |StepOf(p).next.buffer|
  }

  lemma ReadLineNeedsOnlyTheLine(buffer: bytes, n: nat, maxSize: int, tooLong: ParserError)
    requires n <= |buffer| && ReadLine(buffer, maxSize, tooLong).Line?
    requires |ReadLine(buffer, maxSize, tooLong).rest| == |buffer| - n
    ensures !ReadLine(buffer[..n], maxSize, tooLong).NoLine?
  {
    var i := IndexOf(buffer, LF).value;
    assert n == i + 1;
    IndexOfIs(buffer[..n], LF, i);
  }

  /** The bytes a step consumes are enough for it not to wait. */
  lemma RequestLineSuffices(p: Parser)
    requires p.phase == RequestLine && !p.eof && (StepOf(p).Again? || StepOf(p).Emit?)
    ensures !StepOf(Truncate(p, Consumed(p))).Wait?
  {
    hide TakeRequestLine, ReadLine;
    var n := Consumed(p);
    var q := DropBlankLine(p);
    var d := |p.buffer| - |q.buffer|;
    assert ReadLine(q.buffer, p.limits.maxRequestLine, RequestLineTooLong).Line?;
    ReadLineNeedsOnlyTheLine(q.buffer, n - d, p.limits.maxRequestLine, RequestLineTooLong);
    assert q.buffer[..n - d] == p.buffer[..n][d..];
    assert DropBlankLine(Truncate(p, n)).buffer == q.buffer[..n - d];
  }

  lemma HeadersSuffice(p: Parser)
    requires p.phase == Headers && !p.eof && (StepOf(p).Again? || StepOf(p).Emit?)
    ensures !StepOf(Truncate(p, Consumed(p))).Wait?
  {
    var n, room := Consumed(p), p.limits.maxHeadersSize - p.headersSize;
    hide TakeHeaderLine, ReadLine;
    ReadLineNeedsOnlyTheLine(p.buffer, n, room, HeadersTooLarge);
  }

  lemma ChunkLinesSuffice(p: Parser)
    requires p.phase == ChunkSize || p.phase == ChunkCrlf || p.phase == Trailers
    requires !p.eof && (StepOf(p).Again? || StepOf(p).Emit?)
    ensures !StepOf(Truncate(p, Consumed(p))).Wait?
  {
    var n := Consumed(p);
    hide TakeChunkSize, ReadLine, MatchHeaderLine;
    match p.phase
    case ChunkSize => ReadLineNeedsOnlyTheLine(p.buffer, n, p.limits.maxChunkLine, ChunkLineTooLong);
    case ChunkCrlf => ReadLineNeedsOnlyTheLine(p.buffer, n, 2, ChunkNotTerminated);
    case Trailers =>
      ReadLineNeedsOnlyTheLine(p.buffer, n, p.limits.maxHeadersSize - p.headersSize, HeadersTooLarge);
  }

  lemma BodySuffices(p: Parser)
    requires p.phase == BodyLength || p.phase == ChunkBody
    requires !p.eof && (StepOf(p).Again? || StepOf(p).Emit?) && !TakesAll(p)
    ensures var q := Truncate(p, Consumed(p)); !StepOf(q).Wait? && !TakesAll(q)
  {
  }

  lemma StepSuffices(p: Parser)
    requires !p.eof && (StepOf(p).Again? || StepOf(p).Emit?) && !TakesAll(p)
    ensures var q := Truncate(p, Consumed(p)); !StepOf(q).Wait? && !TakesAll(q)
  {
    hide StepRequestLine, StepHeaders, StepBodyLength, StepChunkSize, StepChunkBody, StepChunkCrlf, StepTrailers;
    match p.phase
    case RequestLine => RequestLineSuffices(p);
    case Headers => HeadersSuffice(p);
    case BodyLength => BodySuffices(p);
    case ChunkBody => BodySuffices(p);
    case _ => ChunkLinesSuffice(p);
  }

  /** Exact consumption: a step depends on the bytes it consumes and on nothing
      behind them, and leaves what is behind them as it was. */
  lemma StepIsLocal(p: Parser, y: bytes)
    requires Sane(p) && (StepOf(p).Again? || StepOf(p).Emit?) && !TakesAll(p)
    ensures StepOf(p).next.buffer == p.buffer[Consumed(p)..]
    ensures StepOf(p.(buffer := p.buffer[..Consumed(p)] + y)) ==
            match StepOf(p)
            case Again(next) => Again(next.(buffer := y))
            case Emit(event, next) => Emit(event, next.(buffer := y))
            case other => other
  {
    hide StepOf;
    var n := Consumed(p);
    var q, rest := Truncate(p, n), p.buffer[n..];
    StepSuffices(p);
    StepExtends(q, rest);
    assert Feed(q, rest) == p by { assert p.buffer[..n] + rest == p.buffer; }
    var core := StepOf(q);
    assert StepOf(p) == FeedStep(core, rest);
    assert core.next.buffer == [] by { assert |core.next.buffer + rest| == |rest|; }
    assert [] + rest == rest;
    StepExtends(q, y);
    assert [] + y == y;
    assert Feed(q, y) == p.(buffer := p.buffer[..n] + y);
  }

  // -- where the second empty line is ---------------------------------------------

  lemma NotSeparatedNext(p: Parser, serial: bool)
    requires Sane(p) && !Separated(p, serial) && p.phase == Complete
    ensures serial && Sane(StartNext(p)) && !Separated(StartNext(p), serial)
  {
  }

  lemma NotSeparatedStep(p: Parser, serial: bool)
    requires Sane(p) && !Separated(p, serial) && p.phase != Complete
    requires !(AtStart(p) && CRLF + CRLF <= p.buffer)
    ensures p.error.None? && (StepOf(p).Again? || StepOf(p).Emit?) && !TakesAll(p)
    ensures var next := StepOf(p).next;
            && !Separated(next, serial) && Sane(next) && Keeps(p, StepOf(p)) && Advances(p, StepOf(p))
            && next.buffer == p.buffer[Consumed(p)..]
  {
    hide StepOf;
    if TakesAll(p) {
      BodyStepIs(p);
      if p.buffer != [] {
        TakesAllThenWaits(p);
      }
    }
    StepIsLocal(p, []);
    StepKeepsSane(p);
  }

  /** Whatever follows the first `at` bytes of the buffer is read from `start`. */
  ghost predicate Reaches(p: Parser, at: nat, start: Parser, serial: bool) {
    && at <= |p.buffer| && AtStart(start) && start.buffer == [] && Sane(start)
    && forall y: bytes ::
         Drain(p.(buffer := p.buffer[..at] + y), serial).next == Drain(start.(buffer := y), serial).next
  }

  predicate DoubledAt(buffer: bytes, at: nat) {
    at + 4 <= |buffer| && buffer[at..at + 4] == CRLF + CRLF
  }

  lemma StepReaches(p: Parser, at: nat, start: Parser, serial: bool)
    requires Sane(p) && !Separated(p, serial) && p.phase != Complete
    requires !(AtStart(p) && CRLF + CRLF <= p.buffer)
    requires StepOf(p).Again? || StepOf(p).Emit?
    requires Reaches(StepOf(p).next, at, start, serial)
    ensures Reaches(p, Consumed(p) + at, start, serial)
  {
    hide StepOf, Sane, AtStart, Separated;
    NotSeparatedStep(p, serial);
    var next, n := StepOf(p).next, Consumed(p);
    forall y: bytes
      ensures Drain(p.(buffer := p.buffer[..n + at] + y), serial).next == Drain(start.(buffer := y), serial).next
    {
      StepIsLocal(p, next.buffer[..at] + y);
      SliceBehind(p.buffer, n, at, y);
    }
  }

  lemma {:induction false} FirstDoubled(p: Parser, serial: bool) returns (at: nat, start: Parser)
    requires Sane(p) && !Separated(p, serial)
    ensures DoubledAt(p.buffer, at) && Reaches(p, at, start, serial)
    decreases |p.buffer|, Rank(p.phase)
  {
    hide StepOf, Sane, Separated, Keeps, TakesAll;
    if AtStart(p) && CRLF + CRLF <= p.buffer {
      at, start := 0, p.(buffer := []);
      assert Sane(start) by { FedIsSane(p, []); }
      assert forall y: bytes :: p.buffer[..0] + y == y;
    } else if p.phase == Complete {
      NotSeparatedNext(p, serial);
      at, start := FirstDoubled(StartNext(p), serial);
    } else {
      NotSeparatedStep(p, serial);
      var n := Consumed(p);
      hide Reaches, Drain, AtStart;
      at, start := FirstDoubled(StepOf(p).next, serial);
      StepReaches(p, at, start, serial);
      assert p.buffer[n..][at..at + 4] == p.buffer[n + at..n + at + 4];
      at := n + at;
    }
  }

  lemma FedIsSane(p: Parser, buffer: bytes)
    requires Sane(p)
    ensures Sane(p.(buffer := buffer))
  {
  }

  lemma OneBlankLineIsDropped(p: Parser, serial: bool)
    requires Sane(p) && AtStart(p) && p.buffer == CRLF
    ensures Drain(p, serial).next == p.(buffer := [])
  {
    hide ReadLine, TakeRequestLine;
    assert DropBlankLine(p) == p.(buffer := []);
  }

  lemma TwoBlankLinesAreRejected(p: Parser, serial: bool)
    requires Sane(p) && AtStart(p) && p.buffer == CRLF + CRLF
    ensures Drain(p, serial).next.error.Some?
  {
    var q := DropBlankLine(p);
    assert q.buffer == CRLF;
    IndexOfIs(q.buffer, LF, 1);
    assert q.buffer[..0] == [] && q.buffer[2..] == [];
    assert MatchRequestLine([]) == None;
    assert StepOf(p).Raise?;
  }

  /** Every prefix of the stream is answered the same way however it is cut. */
  ghost predicate CutsAgree(limits: Limits, stream: bytes, serial: bool) {
    forall prefix: bytes, cut: seq<bytes> :: prefix <= stream && Concat(cut) == prefix ==>
      Agree(DrainPieces(Fresh(limits), cut, serial), DrainPieces(Fresh(limits), [prefix], serial))
  }

  lemma DoubledLineIsReadTwoWays(limits: Limits, stream: bytes, serial: bool)
    requires limits.maxRequestLine >= 1 && !Separated(Feed(Fresh(limits), stream), serial)
    ensures !CutsAgree(limits, stream, serial)
  {
    hide StepOf, Separated, Drain, Sane, Reaches, Agree, DrainPieces;
    var p, empty := Feed(Fresh(limits), stream), Fresh(limits);
    FreshIsSane(limits, stream);
    assert p.buffer == stream;
    var at, start := FirstDoubled(p, serial);
    var front := stream[..at];
    var prefix, cut := front + (CRLF + CRLF), [front + CRLF, CRLF];
    assert prefix == stream[..at + 4];
    assert prefix <= stream;
    ConcatOfTwo(front + CRLF, CRLF);
    assert front + CRLF + CRLF == prefix;
    ReadTwoWays(limits, stream, at, start, serial);
    NotAgree(DrainPieces(empty, cut, serial), DrainPieces(empty, [prefix], serial));
  }

  lemma NotAgree(a: Drained, b: Drained)
    requires a.next.error.None? && b.next.error.Some?
    ensures !Agree(a, b)
  {
  }

  lemma ReadTwoWays(limits: Limits, stream: bytes, at: nat, start: Parser, serial: bool)
    requires limits.maxRequestLine >= 1 && Reaches(Feed(Fresh(limits), stream), at, start, serial)
    ensures DrainPieces(Fresh(limits), [stream[..at] + CRLF, CRLF], serial).next.error.None?
    ensures DrainPieces(Fresh(limits), [stream[..at] + (CRLF + CRLF)], serial).next.error.Some?
  {
    hide StepOf, Drain, Sane;
    var p, empty, front := Feed(Fresh(limits), stream), Fresh(limits), stream[..at];
    assert p.buffer == stream;
    FedIsSane(start, CRLF + CRLF);
    TwoBlankLinesAreRejected(start.(buffer := CRLF + CRLF), serial);
    FedIsSane(start, CRLF);
    OneBlankLineIsDropped(start.(buffer := CRLF), serial);
    assert Feed(empty, front + (CRLF + CRLF)) == p.(buffer := front + (CRLF + CRLF));
    assert Feed(empty, front + CRLF) == p.(buffer := front + CRLF);
    assert Feed(start, CRLF) == start.(buffer := CRLF);
    DrainTwoPieces(empty, front + CRLF, CRLF, serial);
    hide DrainPieces;
    DrainOnePiece(empty, front + (CRLF + CRLF), serial);
    assert start.error.None?;
  }

  lemma DrainOnePiece(p: Parser, a: bytes, serial: bool)
    ensures DrainPieces(p, [a], serial).next == Drain(Feed(p, a), serial).next
  {
    hide Drain;
    assert [a][1..] == [];
  }

  lemma FreshIsSane(limits: Limits, stream: bytes)
    requires limits.maxRequestLine >= 1
    ensures Sane(Feed(Fresh(limits), stream))
  {
  }

  lemma DrainTwoPieces(p: Parser, a: bytes, b: bytes, serial: bool)
    ensures DrainPieces(p, [a, b], serial).next == Drain(Feed(Drain(Feed(p, a), serial).next, b), serial).next
  {
    hide Drain;
    var first := Drain(Feed(p, a), serial);
    assert [a, b][1..] == [b] && [b][1..] == [];
    assert DrainPieces(first.next, [b], serial).next == Drain(Feed(first.next, b), serial).next;
  }

  /** The parser is independent of the cut exactly on the streams that never put two
      empty lines where a request line is due. */
  lemma SplitIndependentIff(limits: Limits, stream: bytes, serial: bool)
    requires limits.maxRequestLine >= 1
    ensures CutsAgree(limits, stream, serial) <==> Separated(Feed(Fresh(limits), stream), serial)
  {
    var p := Fresh(limits);
    if Separated(Feed(p, stream), serial) {
      forall prefix: bytes, cut: seq<bytes> | prefix <= stream && Concat(cut) == prefix
        ensures Agree(DrainPieces(p, cut, serial), DrainPieces(p, [prefix], serial))
      {
        var rest := stream[|prefix|..];
        assert prefix + rest == stream;
        FeedTwice(p, prefix, rest);
        SeparatedPrefix(Feed(p, prefix), rest, serial);
        assert Concat([prefix]) == prefix;
        SplitIndependence(limits, cut, [prefix], serial);
      }
    } else {
      DoubledLineIsReadTwoWays(limits, stream, serial);
    }
  }

  /** The smallest such stream: one read of CRLF CRLF is a 400, two reads of CRLF
      are an idle connection. */
  lemma TwoBlankLinesDependOnTheCut(limits: Limits, serial: bool)
    requires limits.maxRequestLine >= 1
    ensures DrainPieces(Fresh(limits), [CRLF + CRLF], serial).next.error.Some?
    ensures DrainPieces(Fresh(limits), [CRLF, CRLF], serial).next == Fresh(limits)
  {
    var p := Fresh(limits);
    assert Feed(p, CRLF + CRLF) == p.(buffer := CRLF + CRLF) && Feed(p, CRLF) == p.(buffer := CRLF);
    TwoBlankLinesAreRejected(p.(buffer := CRLF + CRLF), serial);
    OneBlankLineIsDropped(p.(buffer := CRLF), serial);
    hide Drain;
    DrainTwoPieces(p, CRLF, CRLF, serial);
  }
}
