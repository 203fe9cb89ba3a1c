/** Exactly when the multipart reader is independent of the cut. */
module MultipartExact {
  import opened Bytes
  import opened MultipartSpec
  import opened MultipartSplit

  function Truncate(r: Reader, n: nat): Reader
    requires n <= |r.buffer|
  {
    r.(buffer := r.buffer[..n])
  }

  lemma FindInFront(s: bytes, p: bytes, n: nat)
    requires Find(s, p).Some? && Find(s, p).value + |p| <= n <= |s|
    ensures Find(s[..n], p) == Find(s, p)
  {
    var i := Find(s, p).value;
    var front, back := s[..n], s[n..];
    assert front + back == s;
    forall j | 0 <= j <= i ensures OccursAt(front, p, j) <==> OccursAt(s, p, j) {
      OccursExtend(front, back, p, j);
    }
    FindIs(front, p, i);
  }

  lemma StepSuffices(cfg: Config, r: Reader)
    requires StepOf(cfg, r).Moved?
    ensures var n := |r.buffer| - |StepOf(cfg, r).next.buffer|;
            StepOf(cfg, Truncate(r, n)).Moved?
  {
    hide Find, Emit;
    var n := |r.buffer| - |StepOf(cfg, r).next.buffer|;
    if !r.started {
      FindInFront(r.buffer, cfg.Opening(), n);
    } else if r.atBoundary {
      assert r.buffer[..2] == CRLF;
      assert r.buffer[..n] == CRLF;
    } else if r.open.None? {
      var end := Find(r.buffer, BLANK_LINE).value;
      FindInFront(r.buffer, BLANK_LINE, n);
      assert r.buffer[..n][..end] == r.buffer[..end];
    } else {
      var i := Find(r.buffer, cfg.Delimiter()).value;
      FindInFront(r.buffer, cfg.Delimiter(), n);
      assert r.buffer[..n][..i] == r.buffer[..i];
    }
  }

  /** Exact consumption: a step depends only on the bytes it takes. */
  lemma StepIsLocal(cfg: Config, r: Reader, y: bytes)
    requires StepOf(cfg, r).Moved?
    ensures var next := StepOf(cfg, r).next;
            var n := |r.buffer| - |next.buffer|;
            && next.buffer == r.buffer[n..]
            && StepOf(cfg, r.(buffer := r.buffer[..n] + y)) == Moved(next.(buffer := y))
  {
    hide StepOf;
    var next := StepOf(cfg, r).next;
    var n := |r.buffer| - |next.buffer|;
    var q, rest := Truncate(r, n), r.buffer[n..];
    StepSuffices(cfg, r);
    MovedExtends(cfg, q, rest);
    assert More(q, rest) == r by { assert r.buffer[..n] + rest == r.buffer; }
    var core := StepOf(cfg, q).next;
    assert core.buffer == [] by { assert |core.buffer + rest| == |rest|; }
    assert [] + rest == rest && [] + y == y;
    MovedExtends(cfg, q, y);
    assert More(q, y) == r.(buffer := r.buffer[..n] + y);
  }

  lemma MovedExtends(cfg: Config, r: Reader, x: bytes)
    requires StepOf(cfg, r).Moved?
    ensures StepOf(cfg, More(r, x)) == MoreStep(StepOf(cfg, r), x)
  {
    hide Find, Emit;
    if !r.started {
      PreambleExtends(cfg, r, x);
    } else if r.atBoundary {
      BoundaryTailExtends(cfg, r, x);
    } else if r.open.None? {
      var end := Find(r.buffer, BLANK_LINE).value;
      FindExtend(r.buffer, x, BLANK_LINE);
      assert (r.buffer + x)[..end] == r.buffer[..end];
      assert (r.buffer + x)[end + 4..] == r.buffer[end + 4..] + x;
    } else {
      BodyExtends(cfg, r, x);
    }
  }

  /** The bytes from `at` on are a header block over the cap, read by `start`. */
  ghost predicate OverlongAt(cfg: Config, r: Reader, at: nat, end: nat, start: Reader) {
    && at + end + 4 <= |r.buffer| && InHeaders(start) && start.buffer == [] && start.error == r.error
    && Find(r.buffer[at..], BLANK_LINE) == Some(end) && end + 3 > MAX_PART_HEADERS
    && forall y: bytes ::
         (var a, b := Run(cfg, r.(buffer := r.buffer[..at] + y)), Run(cfg, start.(buffer := y));
          Observed(a) == Observed(b))
  }

  lemma MovedReaches(cfg: Config, r: Reader, at: nat, end: nat, start: Reader)
    requires StepOf(cfg, r).Moved? && OverlongAt(cfg, StepOf(cfg, r).next, at, end, start)
    ensures OverlongAt(cfg, r, |r.buffer| - |StepOf(cfg, r).next.buffer| + at, end, start)
  {
    hide StepOf, InHeaders, Find, Observed;
    var next := StepOf(cfg, r).next;
    StepIsLocal(cfg, r, []);
    MovedIsLive(cfg, r);
    var n := |r.buffer| - |next.buffer|;
    assert next.buffer == r.buffer[n..];
    assert r.buffer[n + at..] == next.buffer[at..];
    forall y: bytes
      ensures Observed(Run(cfg, r.(buffer := r.buffer[..n + at] + y))) == Observed(Run(cfg, start.(buffer := y)))
    {
      StepIsLocal(cfg, r, next.buffer[..at] + y);
      SliceBehind(r.buffer, n, at, y);
    }
  }

  lemma {:induction false} FirstOverlong(cfg: Config, r: Reader) returns (at: nat, end: nat, start: Reader)
    requires !HeadersFit(cfg, r)
    ensures OverlongAt(cfg, r, at, end, start)
    decreases |r.buffer|
  {
    hide StepOf, Find;
    if InHeaders(r) && Find(r.buffer, BLANK_LINE).Some?
       && Find(r.buffer, BLANK_LINE).value + 3 > MAX_PART_HEADERS {
      at, end, start := 0, Find(r.buffer, BLANK_LINE).value, r.(buffer := []);
      assert r.buffer[0..] == r.buffer;
      assert forall y: bytes :: r.buffer[..0] + y == y;
      hide Run, HeadersFit;
    } else {
      hide OverlongAt;
      at, end, start := FirstOverlong(cfg, StepOf(cfg, r).next);
      MovedReaches(cfg, r, at, end, start);
      at := |r.buffer| - |StepOf(cfg, r).next.buffer| + at;
    }
  }

  ghost predicate CutsAgree(cfg: Config, body: bytes) {
    forall prefix: bytes, cut: seq<bytes> :: prefix <= body && Concat(cut) == prefix ==>
      Observed(FeedPieces(cfg, NEW_READER, cut)) == Observed(FeedPieces(cfg, NEW_READER, [prefix]))
  }

  lemma FeedOne(cfg: Config, r: Reader, c: bytes)
    ensures FeedPieces(cfg, r, [c]) == Feed(cfg, r, c)
  {
    hide Feed;
    assert [c][1..] == [];
  }

  lemma NoBlankLineBefore(s: bytes, end: nat)
    requires Find(s, BLANK_LINE) == Some(end)
    ensures Find(s[..end + 3], BLANK_LINE).None?
  {
    var front, back := s[..end + 3], s[end + 3..];
    assert front + back == s;
    forall j | 0 <= j < end ensures !OccursAt(front, BLANK_LINE, j) {
      OccursExtend(front, back, BLANK_LINE, j);
    }
  }

  lemma ObservedError(a: Reader, b: Reader)
    requires Observed(a) == Observed(b) && b.error != Some(HeadersTooLong)
    ensures a.error != Some(HeadersTooLong)
  {
  }

  /** All but the last byte of the block are refused; the whole block is not. */
  lemma OverlongBlock(cfg: Config, r: Reader, at: nat, end: nat, start: Reader)
    requires OverlongAt(cfg, r, at, end, start) && r.error.None?
    ensures at + end + 4 <= |r.buffer|
    ensures Run(cfg, r.(buffer := r.buffer[..at + end + 3])).error == Some(HeadersTooLong)
    ensures Run(cfg, r.(buffer := r.buffer[..at + end + 4])).error != Some(HeadersTooLong)
  {
    hide Run, Find, InHeaders;
    var tail := r.buffer[at..];
    NoBlankLineBefore(tail, end);
    OverlongStops(cfg, start, tail[..end + 3]);
    assert r.buffer[..at] + tail[..end + 3] == r.buffer[..at + end + 3];
    FindInFront(tail, BLANK_LINE, end + 4);
    CompleteNeverTooLong(cfg, start, tail[..end + 4], end);
    assert r.buffer[..at] + tail[..end + 4] == r.buffer[..at + end + 4];
    ObservedError(Run(cfg, r.(buffer := r.buffer[..at + end + 4])), Run(cfg, start.(buffer := tail[..end + 4])));
  }

  lemma OverlongIsReadTwoWays(cfg: Config, body: bytes)
    requires !HeadersFit(cfg, More(NEW_READER, body))
    ensures !CutsAgree(cfg, body)
  {
    hide StepOf, HeadersFit, Run, OverlongAt;
    var r := More(NEW_READER, body);
    assert r.buffer == body;
    var at, end, start := FirstOverlong(cfg, r);
    OverlongBlock(cfg, r, at, end, start);
    var prefix, most, last := body[..at + end + 4], body[..at + end + 3], [body[at + end + 3]];
    assert prefix == most + last && prefix <= body;
    assert r.(buffer := prefix) == More(NEW_READER, prefix) && r.(buffer := most) == More(NEW_READER, most);
    ConcatOfTwo(most, last);
    FeedOne(cfg, NEW_READER, prefix);
    FeedTwo(cfg, most, last);
    assert Observed(FeedPieces(cfg, NEW_READER, [most, last])).error == Some(HeadersTooLong);
    assert Observed(FeedPieces(cfg, NEW_READER, [prefix])).error != Some(HeadersTooLong);
  }

  lemma FeedTwo(cfg: Config, a: bytes, b: bytes)
    requires a != [] && Run(cfg, More(NEW_READER, a)).error == Some(HeadersTooLong)
    ensures FeedPieces(cfg, NEW_READER, [a, b]).error == Some(HeadersTooLong)
  {
    hide Run;
    assert [a, b][1..] == [b];
    var first := Feed(cfg, NEW_READER, a);
    assert first.error == Some(HeadersTooLong);
    FeedOne(cfg, first, b);
  }

  lemma OverlongStops(cfg: Config, start: Reader, block: bytes)
    requires InHeaders(start) && Find(block, BLANK_LINE).None? && |block| > MAX_PART_HEADERS
    ensures Run(cfg, start.(buffer := block)).error == Some(HeadersTooLong)
  {
    hide Find, Emit;
  }

  /** A complete block is never refused for its length. */
  lemma CompleteNeverTooLong(cfg: Config, start: Reader, block: bytes, end: nat)
    requires InHeaders(start) && start.error.None? && Find(block, BLANK_LINE) == Some(end) && |block| == end + 4
    ensures Run(cfg, start.(buffer := block)).error != Some(HeadersTooLong)
  {
    var r := start.(buffer := block);
    match cfg.parse(block[..end])
    case None => assert StepOf(cfg, r) == Raised(BadPartHeaders);
    case Some(head) =>
      var next := r.(buffer := [], open := Some(Part(head, [])));
      assert block[end + 4..] == [];
      assert StepOf(cfg, r) == Moved(next);
      assert StepOf(cfg, next) == Stuck(next) by { EmptyBodyWaits(cfg, next); }
      hide StepOf;
  }

  lemma EmptyBodyWaits(cfg: Config, r: Reader)
    requires !r.finished && r.started && !r.atBoundary && r.open.Some? && r.buffer == []
    ensures StepOf(cfg, r) == Stuck(r)
  {
    assert !OccursAt([], cfg.Delimiter(), 0);
    assert r.buffer[..0] == [] && r.buffer[0..] == [];
  }

  /** The reader is independent of the cut exactly on the bodies whose header blocks
      fit the cap: one byte more and a block that arrives whole is accepted while the
      same block in two reads is refused. */
  lemma SplitIndependentIff(cfg: Config, body: bytes)
    ensures CutsAgree(cfg, body) <==> HeadersFit(cfg, More(NEW_READER, body))
  {
    hide HeadersFit, FeedPieces, Observed;
    if HeadersFit(cfg, More(NEW_READER, body)) {
      forall prefix: bytes, cut: seq<bytes> | prefix <= body && Concat(cut) == prefix
        ensures Observed(FeedPieces(cfg, NEW_READER, cut)) == Observed(FeedPieces(cfg, NEW_READER, [prefix]))
      {
        var rest := body[|prefix|..];
        assert prefix + rest == body;
        assert More(More(NEW_READER, prefix), rest) == More(NEW_READER, body);
        FitPrefix(cfg, More(NEW_READER, prefix), rest);
        assert Concat([prefix]) == prefix;
        SplitIndependence(cfg, cut, [prefix]);
      }
    } else {
      OverlongIsReadTwoWays(cfg, body);
    }
  }

  lemma {:induction false} FitPrefix(cfg: Config, r: Reader, x: bytes)
    requires HeadersFit(cfg, More(r, x))
    ensures HeadersFit(cfg, r)
    decreases |r.buffer|
  {
    if Find(r.buffer, BLANK_LINE).Some? {
      FindExtend(r.buffer, x, BLANK_LINE);
    }
    if StepOf(cfg, r).Moved? {
      MovedExtends(cfg, r, x);
      hide StepOf, Find;
      FitPrefix(cfg, StepOf(cfg, r).next, x);
    }
  }
}
