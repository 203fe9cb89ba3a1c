/** Split independence of the multipart reader: its whole state after any prefix of a
    body is a function of that prefix, because what is held back neither hides nor
    swallows a delimiter. */
module MultipartSplit {
  import opened Bytes
  import opened MultipartSpec

  function More(r: Reader, x: bytes): Reader { r.(buffer := r.buffer + x) }

  /** Every header block that is read fits the cap with all but its last byte: the cap
      is tested only while the terminator is still missing. */
  predicate HeadersFit(cfg: Config, r: Reader)
    decreases |r.buffer|
  {
    && (InHeaders(r) && Find(r.buffer, BLANK_LINE).Some? ==> Find(r.buffer, BLANK_LINE).value + 3 <= MAX_PART_HEADERS)
    && match StepOf(cfg, r)
       case Moved(next) => HeadersFit(cfg, next)
       case _ => true
  }

  predicate InHeaders(r: Reader) { !r.finished && r.started && !r.atBoundary && r.open.None? }

  function MoreStep(s: Step, x: bytes): Step {
    match s
    case Moved(next) => Moved(More(next, x))
    case Stuck(next) => Stuck(More(next, x))
    case Raised(e) => Raised(e)
  }

  // -- a step with more bytes behind it ---------------------------------------------

  lemma BoundaryTailExtends(cfg: Config, r: Reader, x: bytes)
    requires !ConsumeBoundaryTail(cfg, r).Stuck?
    ensures ConsumeBoundaryTail(cfg, More(r, x)) == MoreStep(ConsumeBoundaryTail(cfg, r), x)
  {
    var b := r.buffer + x;
    assert |r.buffer| >= 2;
    assert b[..2] == r.buffer[..2] && b[2..] == r.buffer[2..] + x;
    assert CRLF <= b <==> CRLF == b[..2];
    assert DASH <= b <==> DASH == b[..2];
    assert CRLF <= r.buffer <==> CRLF == r.buffer[..2];
    assert DASH <= r.buffer <==> DASH == r.buffer[..2];
  }

  lemma HeadersExtend(cfg: Config, r: Reader, x: bytes)
    requires InHeaders(r) && HeadersFit(cfg, More(r, x)) && !ReadHeaders(cfg, r).Stuck?
    ensures ReadHeaders(cfg, More(r, x)) == MoreStep(ReadHeaders(cfg, r), x)
  {
    match Find(r.buffer, BLANK_LINE)
    case Some(end) =>
      FindExtend(r.buffer, x, BLANK_LINE);
      assert (r.buffer + x)[..end] == r.buffer[..end];
      assert (r.buffer + x)[end + 4..] == r.buffer[end + 4..] + x;
    case None =>
      var n := |r.buffer| - 3;
      FindAfterDrop(r.buffer, x, BLANK_LINE, n);
  }

  lemma EmitTwice(cfg: Config, p: Part, a: bytes, b: bytes)
    ensures match Emit(cfg, p, a)
            case Emitted(q) => Emit(cfg, p, a + b) == Emit(cfg, q, b)
            case TooLarge(e) => Emit(cfg, p, a + b) == TooLarge(e)
  {
    if a == [] {
      assert a + b == b;
    } else {
      assert p.content + a + b == p.content + (a + b);
      assert b == [] ==> a + b == a;
    }
  }

  lemma AvailableAfterDrop(cfg: Config, buffer: bytes, x: bytes)
    ensures var n := Available(cfg, buffer);
            n <= |buffer| && Available(cfg, buffer + x) == n + Available(cfg, buffer[n..] + x)
  {
  }

  /** Writing what is available and then going on is writing it all at once. */
  lemma BodyInTwo(cfg: Config, r: Reader, x: bytes)
    requires r.open.Some? && Find(r.buffer, cfg.Delimiter()).None?
    ensures match ReadBody(cfg, r)
            case Stuck(next) => next.open.Some? && ReadBody(cfg, More(next, x)) == ReadBody(cfg, More(r, x))
            case Raised(e) => ReadBody(cfg, More(r, x)) == Raised(e)
            case Moved(_) => false
  {
    hide ReadBody, Emit, Cut, Written;
    var b, p := r.buffer, r.open.value;
    CutAfterDrop(cfg, b, x);
    ReadBodyCuts(cfg, r);
    ReadBodyCuts(cfg, More(r, x));
    var n := Cut(cfg, b).0;
    StuckIs(cfg, r, Emit(cfg, p, b[..n]), n);
    CutFits(cfg, b[n..] + x);
    var (m, skip) := Cut(cfg, b[n..] + x);
    WrittenInTwo(cfg, r, x, n, m, skip);
    match Emit(cfg, p, b[..n])
    case TooLarge(_) =>
    case Emitted(q) => ReadBodyCuts(cfg, Rest(r, q, n, x));
  }

  function Rest(r: Reader, q: Part, n: nat, x: bytes): Reader
    requires n <= |r.buffer|
  {
    r.(buffer := r.buffer[n..] + x, open := Some(q))
  }

  lemma StuckIs(cfg: Config, r: Reader, p: Emitted, n: nat)
    requires n <= |r.buffer|
    ensures Written(cfg, r, p, n, 0) ==
            match p case TooLarge(e) => Raised(e) case Emitted(q) => Stuck(r.(buffer := r.buffer[n..], open := Some(q)))
  {
  }

  lemma WrittenInTwo(cfg: Config, r: Reader, x: bytes, n: nat, m: nat, skip: nat)
    requires r.open.Some? && n <= |r.buffer| && m + skip <= |r.buffer[n..] + x|
    ensures var all := Written(cfg, More(r, x), Emit(cfg, r.open.value, (r.buffer + x)[..n + m]), n + m, skip);
            match Emit(cfg, r.open.value, r.buffer[..n])
            case TooLarge(e) => all == Raised(e)
            case Emitted(q) => Written(cfg, Rest(r, q, n, x), Emit(cfg, q, (r.buffer[n..] + x)[..m]), m, skip) == all
  {
    hide Emit;
    SliceOver(r.buffer, x, n, m, skip);
    EmitTwice(cfg, r.open.value, r.buffer[..n], (r.buffer[n..] + x)[..m]);
  }

  /** How many bytes of a body are written now, and how many of a delimiter go with them. */
  function Cut(cfg: Config, buffer: bytes): (nat, nat) {
    match Find(buffer, cfg.Delimiter())
    case Some(i) => (i, |cfg.Delimiter()|)
    case None => (Available(cfg, buffer), 0)
  }

  function Written(cfg: Config, r: Reader, p: Emitted, n: nat, skip: nat): Step
    requires n + skip <= |r.buffer|
  {
    match p
    case TooLarge(e) => Raised(e)
    case Emitted(q) =>
      if skip == 0 then Stuck(r.(buffer := r.buffer[n..], open := Some(q)))
      else Moved(ClosePart(r, q).(buffer := r.buffer[n + skip..], atBoundary := true))
  }

  lemma CutFits(cfg: Config, buffer: bytes)
    ensures Cut(cfg, buffer).0 + Cut(cfg, buffer).1 <= |buffer|
  {
    hide Find;
  }

  lemma ReadBodyCuts(cfg: Config, r: Reader)
    requires r.open.Some?
    ensures var (n, skip) := Cut(cfg, r.buffer);
            n + skip <= |r.buffer| && ReadBody(cfg, r) == Written(cfg, r, Emit(cfg, r.open.value, r.buffer[..n]), n, skip)
  {
    hide Find, Emit, ClosePart;
  }

  lemma CutAfterDrop(cfg: Config, b: bytes, x: bytes)
    requires Find(b, cfg.Delimiter()).None?
    ensures var (n, _) := Cut(cfg, b);
            n <= |b| && Cut(cfg, b).1 == 0 && Cut(cfg, b + x) == (n + Cut(cfg, b[n..] + x).0, Cut(cfg, b[n..] + x).1)
  {
    hide Find;
    var n := Available(cfg, b);
    FindAfterDrop(b, x, cfg.Delimiter(), n);
    AvailableAfterDrop(cfg, b, x);
  }

  lemma SliceOver(b: bytes, x: bytes, n: nat, m: nat, skip: nat)
    requires n <= |b| && m + skip <= |b[n..] + x|
    ensures (b + x)[..n + m] == b[..n] + (b[n..] + x)[..m]
    ensures (b + x)[n + m + skip..] == (b[n..] + x)[m + skip..]
  {
    assert b + x == b[..n] + (b[n..] + x);
  }

  lemma BodyExtends(cfg: Config, r: Reader, x: bytes)
    requires r.open.Some? && !ReadBody(cfg, r).Stuck?
    ensures ReadBody(cfg, More(r, x)) == MoreStep(ReadBody(cfg, r), x)
  {
    match Find(r.buffer, cfg.Delimiter())
    case None => BodyInTwo(cfg, r, x);
    case Some(i) =>
      hide Emit, Find;
      var d := cfg.Delimiter();
      FindExtend(r.buffer, x, d);
      assert (r.buffer + x)[..i] == r.buffer[..i];
      assert (r.buffer + x)[i + |d|..] == r.buffer[i + |d|..] + x;
  }

  lemma PreambleExtends(cfg: Config, r: Reader, x: bytes)
    requires FindFirstBoundary(cfg, r).Moved?
    ensures FindFirstBoundary(cfg, More(r, x)) == MoreStep(FindFirstBoundary(cfg, r), x)
  {
    var d := cfg.Opening();
    FindExtend(r.buffer, x, d);
    var i := Find(r.buffer, d).value;
    assert (r.buffer + x)[i + |d|..] == r.buffer[i + |d|..] + x;
  }

  lemma StepExtends(cfg: Config, r: Reader, x: bytes)
    requires !StepOf(cfg, r).Stuck? && HeadersFit(cfg, More(r, x))
    ensures StepOf(cfg, More(r, x)) == MoreStep(StepOf(cfg, r), x)
  {
    hide FindFirstBoundary, ConsumeBoundaryTail, ReadHeaders, ReadBody;
    if !r.started {
      assert FindFirstBoundary(cfg, r).Moved? by { PreambleNeverRaises(cfg, r); }
      PreambleExtends(cfg, r, x);
    } else if r.atBoundary {
      BoundaryTailExtends(cfg, r, x);
    } else if r.open.None? {
      HeadersExtend(cfg, r, x);
    } else {
      BodyExtends(cfg, r, x);
    }
  }

  lemma PreambleNeverRaises(cfg: Config, r: Reader)
    ensures !FindFirstBoundary(cfg, r).Raised?
  {
  }

  // -- a stop, and more bytes after it ------------------------------------------------

  lemma PreambleInTwo(cfg: Config, r: Reader, x: bytes)
    requires FindFirstBoundary(cfg, r).Stuck?
    ensures var next := FindFirstBoundary(cfg, r).next;
            FindFirstBoundary(cfg, More(next, x)) == FindFirstBoundary(cfg, More(r, x))
  {
    hide Find;
    var d, b := cfg.Opening(), r.buffer;
    var n := if |b| > |d| then |b| - |d| else 0;
    assert TrimPreamble(b, |d|) == b[n..];
    FindAfterDrop(b, x, d, n);
    var whole, rest := b + x, b[n..] + x;
    assert whole == b[..n] + rest;
    var i := Find(rest, d);
    assert i.Some? ==> whole[n + i.value + |d|..] == rest[i.value + |d|..];
    assert TrimPreamble(whole, |d|) == TrimPreamble(rest, |d|);
  }

  /** Stopping for more bytes loses nothing: the next step is the one that would have
      been taken with all of them. */
  lemma StopLosesNothing(cfg: Config, r: Reader, x: bytes)
    requires !r.finished && StepOf(cfg, r).Stuck? && !StepOf(cfg, r).next.finished
    ensures var next := StepOf(cfg, r).next;
            && StepOf(cfg, More(next, x)) == StepOf(cfg, More(r, x))
            && (InHeaders(r) || InHeaders(next) ==> next == r) && next.error == r.error
  {
    hide Find;
    if !r.started {
      PreambleInTwo(cfg, r, x);
    } else if r.atBoundary {
    } else if r.open.None? {
    } else {
      BodyInTwo(cfg, r, x);
    }
  }

  // -- any number of pieces -----------------------------------------------------------

  ghost predicate TwoGoes(cfg: Config, r: Reader, x: bytes) {
    var first := Run(cfg, r);
    && Observed(Feed(cfg, first, x)) == Observed(Run(cfg, More(r, x)))
    && (first.error.None? && !first.finished ==> HeadersFit(cfg, More(first, x)))
  }

  lemma MoreNothing(r: Reader)
    ensures More(r, []) == r
  {
  }

  lemma SameStepSameRun(cfg: Config, a: Reader, b: Reader)
    requires StepOf(cfg, a) == StepOf(cfg, b) && a.error.None? && b.error.None?
    ensures Observed(Run(cfg, a)) == Observed(Run(cfg, b))
    ensures HeadersFit(cfg, a) && !InHeaders(b) ==> HeadersFit(cfg, b)
  {
    hide StepOf;
  }

  lemma FinishesInTwo(cfg: Config, r: Reader, x: bytes)
    requires !r.finished && r.error.None? && StepOf(cfg, r).Stuck? && StepOf(cfg, r).next.finished
    ensures TwoGoes(cfg, r, x)
  {
    hide FindFirstBoundary, ReadHeaders, ReadBody;
    OnlyTailFinishes(cfg, r);
    assert DASH <= r.buffer + x by { assert r.buffer[..2] == (r.buffer + x)[..2]; }
  }

  lemma OnlyTailFinishes(cfg: Config, r: Reader)
    requires !r.finished && StepOf(cfg, r).Stuck? && StepOf(cfg, r).next.finished
    ensures r.started && r.atBoundary
  {
    hide Find, Emit;
  }

  lemma StopsInTwo(cfg: Config, r: Reader, x: bytes)
    requires !r.finished && r.error.None? && StepOf(cfg, r).Stuck? && !StepOf(cfg, r).next.finished
    requires HeadersFit(cfg, More(r, x))
    ensures TwoGoes(cfg, r, x)
  {
    StopLosesNothing(cfg, r, x);
    var next := StepOf(cfg, r).next;
    SameStepSameRun(cfg, More(r, x), More(next, x));
    hide StepOf;
    assert Run(cfg, r) == next;
    if x == [] {
      MoreNothing(r);
    }
  }

  lemma {:induction false} RunInTwo(cfg: Config, r: Reader, x: bytes)
    requires !r.finished && r.error.None? && HeadersFit(cfg, More(r, x))
    ensures TwoGoes(cfg, r, x)
    decreases |r.buffer|
  {
    hide StepOf, Observed;
    match StepOf(cfg, r)
    case Moved(next) =>
      StepExtends(cfg, r, x);
      MovedIsLive(cfg, r);
      RunInTwo(cfg, next, x);
    case Raised(e) =>
      StepExtends(cfg, r, x);
      RaisedInTwo(cfg, r, x);
    case Stuck(next) =>
      if next.finished {
        FinishesInTwo(cfg, r, x);
      } else {
        StopsInTwo(cfg, r, x);
      }
  }

  lemma RaisedInTwo(cfg: Config, r: Reader, x: bytes)
    requires StepOf(cfg, r).Raised? && StepOf(cfg, More(r, x)) == StepOf(cfg, r)
    ensures TwoGoes(cfg, r, x)
  {
    hide StepOf;
  }

  lemma MovedIsLive(cfg: Config, r: Reader)
    ensures StepOf(cfg, r).Moved? ==> !StepOf(cfg, r).next.finished && StepOf(cfg, r).next.error == r.error
  {
    hide Find, Emit;
  }

  lemma {:induction false} IdlePieces(cfg: Config, r: Reader, pieces: seq<bytes>)
    requires r.finished || r.error.Some?
    ensures FeedPieces(cfg, r, pieces) == r
    decreases |pieces|
  {
    if pieces != [] { IdlePieces(cfg, r, pieces[1..]); }
  }

  lemma {:induction false} PiecesAsOne(cfg: Config, r: Reader, pieces: seq<bytes>)
    requires r.error.None? && !r.finished && HeadersFit(cfg, More(r, Concat(pieces)))
    ensures Observed(FeedPieces(cfg, r, pieces)) == Observed(Feed(cfg, r, Concat(pieces)))
    decreases |pieces|
  {
    hide HeadersFit, Run, Observed;
    if pieces != [] {
      var c, rest := pieces[0], Concat(pieces[1..]);
      if c == [] {
        assert c + rest == rest;
        PiecesAsOne(cfg, r, pieces[1..]);
      } else {
        assert r.buffer + c + rest == r.buffer + (c + rest);
        assert More(More(r, c), rest) == More(r, c + rest);
        RunInTwo(cfg, More(r, c), rest);
        var first := Run(cfg, More(r, c));
        assert Feed(cfg, r, c) == first;
        if first.error.None? && !first.finished {
          PiecesAsOne(cfg, first, pieces[1..]);
        } else {
          IdlePieces(cfg, first, pieces[1..]);
        }
      }
    }
  }

  /** Two ways of cutting the same body leave the reader in the same state, or raise
      the same error. */
  lemma SplitIndependence(cfg: Config, cut: seq<bytes>, other: seq<bytes>)
    requires Concat(cut) == Concat(other) && HeadersFit(cfg, More(NEW_READER, Concat(cut)))
    ensures Observed(FeedPieces(cfg, NEW_READER, cut)) == Observed(FeedPieces(cfg, NEW_READER, other))
  {
    PiecesAsOne(cfg, NEW_READER, cut);
    PiecesAsOne(cfg, NEW_READER, other);
  }
}
