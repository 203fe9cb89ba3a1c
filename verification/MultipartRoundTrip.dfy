/** Writing a form and reading it back, in any chunks, are inverse. */
module MultipartRoundTrip {
  import opened Bytes
  import opened MultipartSpec
  import opened MultipartSplit
  import opened MultipartExact

  /** A part as a client writes it: the raw header block and the content. */
  datatype Written = Written(raw: bytes, content: bytes)

  predicate NoOccurrence(s: bytes, p: bytes) { forall i :: 0 <= i < |s| ==> !OccursAt(s, p, i) }

  /** A header block that the blank line after it ends, and nothing before. */
  predicate HeaderBlock(raw: bytes) {
    NoOccurrence(raw, BLANK_LINE) && !(|raw| >= 2 && raw[|raw| - 2..] == CRLF)
  }

  /** The conditions on a written part: its headers are understood and fit the cap, its
      content does not contain the delimiter and respects the limit of its kind. */
  predicate Writable(cfg: Config, w: Written) {
    && HeaderBlock(w.raw) && |w.raw| + 3 <= MAX_PART_HEADERS
    && cfg.parse(w.raw).Some? && SizeFits(cfg, cfg.parse(w.raw).value, |w.content|)
    && NoOccurrence(w.content, cfg.Delimiter())
  }

  predicate AllWritable(cfg: Config, parts: seq<Written>) {
    forall i :: 0 <= i < |parts| ==> Writable(cfg, parts[i])
  }

  /** What follows a boundary: the parts that remain, then the closing dashes. */
  function EncodeTail(cfg: Config, parts: seq<Written>, epilogue: bytes): bytes {
    if parts == [] then DASH + epilogue
    else CRLF + parts[0].raw + BLANK_LINE + parts[0].content + cfg.Delimiter() + EncodeTail(cfg, parts[1..], epilogue)
  }

  function EncodeForm(cfg: Config, preamble: bytes, parts: seq<Written>, epilogue: bytes): bytes {
    preamble + cfg.Opening() + EncodeTail(cfg, parts, epilogue)
  }

  function AsRead(cfg: Config, w: Written): Part
    requires Writable(cfg, w)
  {
    Part(cfg.parse(w.raw).value, w.content)
  }

  function FieldsOf(cfg: Config, parts: seq<Written>): seq<Part>
    requires AllWritable(cfg, parts)
  {
    if parts == [] then []
    else (if AsRead(cfg, parts[0]).head.filename.None? then [AsRead(cfg, parts[0])] else []) + FieldsOf(cfg, parts[1..])
  }

  function FilesOf(cfg: Config, parts: seq<Written>): seq<Part>
    requires AllWritable(cfg, parts)
  {
    if parts == [] then []
    else (if AsRead(cfg, parts[0]).head.filename.Some? then [AsRead(cfg, parts[0])] else []) + FilesOf(cfg, parts[1..])
  }

  // -- where a pattern is first found ---------------------------------------------------

  /** A delimiter that starts with its only CR has no proper border, so it cannot
      straddle the end of a content: its first occurrence is the written one. */
  lemma DelimiterIsFoundWhereWritten(content: bytes, d: bytes, rest: bytes)
    requires d != [] && d[0] == CR && (forall i :: 1 <= i < |d| ==> d[i] != CR)
    requires NoOccurrence(content, d)
    ensures Find(content + d + rest, d) == Some(|content|)
  {
    var s, n := content + d + rest, |content|;
    assert s[n..n + |d|] == d;
    forall j | 0 <= j < n ensures !OccursAt(s, d, j) {
      if j + |d| <= n {
        assert s[j..j + |d|] == content[j..j + |d|];
        assert !OccursAt(content, d, j);
      } else {
        // the byte at n is the CR of the written delimiter
        assert s[n] == CR;
        DiffersAt(s, d, j, n - j);
      }
    }
    FindIs(s, d, n);
  }

  /** Behind a block that does not end with CRLF, an earlier blank line would have its CR
      where the written one has another byte. */
  lemma BlankLineDoesNotStraddle(raw: bytes, rest: bytes, j: nat)
    requires HeaderBlock(raw) && j < |raw| < j + 4
    ensures !OccursAt(raw + BLANK_LINE + rest, BLANK_LINE, j)
  {
    var s, n := raw + BLANK_LINE + rest, |raw|;
    assert s[n] == CR;
    if n == j + 2 {
      assert raw[j..] == [raw[j], raw[j + 1]];
      var k := if raw[j] == CR then 1 else 0;
      assert s[j + k] == raw[j + k];
      DiffersAt(s, BLANK_LINE, j, k);
    } else {
      DiffersAt(s, BLANK_LINE, j, n - j);
    }
  }

  lemma DiffersAt(s: bytes, d: bytes, j: nat, k: nat)
    requires k < |d| && j + k < |s| && s[j + k] != d[k]
    ensures !OccursAt(s, d, j)
  {
    if j + |d| <= |s| {
      assert s[j..j + |d|][k] == s[j + k];
    }
  }

  lemma BlankLineIsFoundWhereWritten(raw: bytes, rest: bytes)
    requires HeaderBlock(raw)
    ensures Find(raw + BLANK_LINE + rest, BLANK_LINE) == Some(|raw|)
  {
    var s, n := raw + BLANK_LINE + rest, |raw|;
    assert s[n..n + 4] == BLANK_LINE;
    forall j | 0 <= j < n ensures !OccursAt(s, BLANK_LINE, j) {
      if j + 4 <= n {
        assert s[j..j + 4] == raw[j..j + 4];
        assert !OccursAt(raw, BLANK_LINE, j);
      } else {
        BlankLineDoesNotStraddle(raw, rest, j);
      }
    }
    FindIs(s, BLANK_LINE, n);
  }

  lemma DelimiterShape(cfg: Config)
    requires Without(cfg.boundary, CR)
    ensures var d := cfg.Delimiter();
            d != [] && d[0] == CR && forall i :: 1 <= i < |d| ==> d[i] != CR
  {
    var d := cfg.Delimiter();
    assert forall i :: 4 <= i < |d| ==> d[i] == cfg.boundary[i - 4];
  }

  // -- one part ---------------------------------------------------------------

  predicate AtBoundary(r: Reader) { r.started && r.atBoundary && !r.finished && r.open.None? && r.error.None? }

  /** The reader once it has taken one written part. */
  function AfterPart(cfg: Config, r: Reader, w: Written, rest: bytes): Reader
    requires Writable(cfg, w)
  {
    ClosePart(r, AsRead(cfg, w)).(buffer := rest, atBoundary := true, partsSeen := r.partsSeen + 1)
  }

  lemma TailStep(cfg: Config, r: Reader, rest: bytes)
    requires AtBoundary(r) && r.buffer == CRLF + rest && r.partsSeen + 1 <= cfg.maxParts
    ensures StepOf(cfg, r) == Moved(r.(buffer := rest, atBoundary := false, partsSeen := r.partsSeen + 1))
  {
    assert r.buffer[..2] == CRLF && r.buffer[2..] == rest;
    assert !(DASH <= r.buffer) by { assert r.buffer[0] == CR; }
  }

  lemma HeadStep(cfg: Config, r: Reader, raw: bytes, rest: bytes)
    requires InHeaders(r) && HeaderBlock(raw) && r.buffer == raw + BLANK_LINE + rest && cfg.parse(raw).Some?
    ensures StepOf(cfg, r) == Moved(r.(buffer := rest, open := Some(Part(cfg.parse(raw).value, []))))
    ensures Find(r.buffer, BLANK_LINE) == Some(|raw|)
  {
    BlankLineIsFoundWhereWritten(raw, rest);
    assert r.buffer[..|raw|] == raw && r.buffer[|raw| + 4..] == rest;
  }

  lemma BodyStep(cfg: Config, r: Reader, head: PartHead, content: bytes, rest: bytes)
    requires !r.finished && r.started && !r.atBoundary && r.open == Some(Part(head, []))
    requires Without(cfg.boundary, CR) && NoOccurrence(content, cfg.Delimiter()) && SizeFits(cfg, head, |content|)
    requires r.buffer == content + cfg.Delimiter() + rest
    ensures StepOf(cfg, r) == Moved(ClosePart(r, Part(head, content)).(buffer := rest, atBoundary := true))
  {
    var d := cfg.Delimiter();
    DelimiterShape(cfg);
    DelimiterIsFoundWhereWritten(content, d, rest);
    assert r.buffer[..|content|] == content && r.buffer[|content| + |d|..] == rest;
    assert [] + content == content;
    hide Find;
  }

  lemma PartIsRead(cfg: Config, r: Reader, w: Written, rest: bytes)
    requires AtBoundary(r) && Writable(cfg, w) && Without(cfg.boundary, CR) && r.partsSeen + 1 <= cfg.maxParts
    requires r.buffer == CRLF + w.raw + BLANK_LINE + w.content + cfg.Delimiter() + rest
    ensures Run(cfg, r) == Run(cfg, AfterPart(cfg, r, w, rest))
    ensures HeadersFit(cfg, r) <==> HeadersFit(cfg, AfterPart(cfg, r, w, rest))
    ensures AtBoundary(AfterPart(cfg, r, w, rest))
  {
    hide StepOf, Find, HeaderBlock, NoOccurrence, SizeFits;
    var body := w.content + cfg.Delimiter() + rest;
    var block := w.raw + BLANK_LINE + body;
    assert r.buffer == CRLF + block;
    TailStep(cfg, r, block);
    var r1 := StepOf(cfg, r).next;
    HeadStep(cfg, r1, w.raw, body);
    var r2 := StepOf(cfg, r1).next;
    BodyStep(cfg, r2, cfg.parse(w.raw).value, w.content, rest);
    var r3 := StepOf(cfg, r2).next;
    assert r3 == AfterPart(cfg, r, w, rest);
    assert Run(cfg, r) == Run(cfg, r1) && Run(cfg, r1) == Run(cfg, r2) && Run(cfg, r2) == Run(cfg, r3);
    assert HeadersFit(cfg, r) <==> HeadersFit(cfg, r1);
    assert HeadersFit(cfg, r1) <==> HeadersFit(cfg, r2);
    assert HeadersFit(cfg, r2) <==> HeadersFit(cfg, r3);
  }

  // -- the whole form -----------------------------------------------------------

  /** The reader once it has taken all the parts and the closing dashes. */
  function AfterForm(cfg: Config, r: Reader, parts: seq<Written>, epilogue: bytes): Reader
    requires AllWritable(cfg, parts)
  {
    r.(buffer := DASH + epilogue, finished := true, partsSeen := r.partsSeen + |parts|,
       fields := r.fields + FieldsOf(cfg, parts), files := r.files + FilesOf(cfg, parts))
  }

  lemma AfterFirstPart(cfg: Config, r: Reader, parts: seq<Written>, rest: bytes, epilogue: bytes)
    requires r.open.None? && r.atBoundary && parts != [] && AllWritable(cfg, parts)
    ensures AfterForm(cfg, AfterPart(cfg, r, parts[0], rest), parts[1..], epilogue) == AfterForm(cfg, r, parts, epilogue)
  {
    hide Writable;
    var p := AsRead(cfg, parts[0]);
    assert r.fields + [p] + FieldsOf(cfg, parts[1..]) == r.fields + ([p] + FieldsOf(cfg, parts[1..]));
    assert r.files + [p] + FilesOf(cfg, parts[1..]) == r.files + ([p] + FilesOf(cfg, parts[1..]));
    assert r.files + ([] + FilesOf(cfg, parts[1..])) == r.files + FilesOf(cfg, parts[1..]);
    assert r.fields + ([] + FieldsOf(cfg, parts[1..])) == r.fields + FieldsOf(cfg, parts[1..]);
  }

  lemma ClosingDashes(cfg: Config, r: Reader, epilogue: bytes)
    requires AtBoundary(r) && r.buffer == DASH + epilogue
    ensures Run(cfg, r) == r.(finished := true) && HeadersFit(cfg, r)
  {
    assert DASH <= r.buffer;
    assert StepOf(cfg, r) == Stuck(r.(finished := true));
    hide StepOf;
  }

  lemma {:induction false} TailIsRead(cfg: Config, r: Reader, parts: seq<Written>, epilogue: bytes)
    requires AtBoundary(r) && AllWritable(cfg, parts) && Without(cfg.boundary, CR)
    requires r.partsSeen + |parts| <= cfg.maxParts && r.buffer == EncodeTail(cfg, parts, epilogue)
    ensures Run(cfg, r) == AfterForm(cfg, r, parts, epilogue) && HeadersFit(cfg, r)
    decreases |parts|
  {
    hide Run, HeadersFit, Writable, AtBoundary;
    if parts == [] {
      ClosingDashes(cfg, r, epilogue);
    } else {
      var rest := EncodeTail(cfg, parts[1..], epilogue);
      PartIsRead(cfg, r, parts[0], rest);
      var next := AfterPart(cfg, r, parts[0], rest);
      TailIsRead(cfg, next, parts[1..], epilogue);
      AtBoundaryIsClosed(r);
      AfterFirstPart(cfg, r, parts, rest, epilogue);
    }
  }

  lemma AtBoundaryIsClosed(r: Reader)
    requires AtBoundary(r)
    ensures r.open.None? && r.atBoundary
  {
  }

  lemma OpeningStep(cfg: Config, preamble: bytes, rest: bytes)
    requires Find(preamble + cfg.Opening(), cfg.Opening()) == Some(|preamble|)
    ensures var r := More(NEW_READER, preamble + cfg.Opening() + rest);
            StepOf(cfg, r) == Moved(NEW_READER.(buffer := rest, started := true, atBoundary := true))
  {
    var d := cfg.Opening();
    var r := More(NEW_READER, preamble + d + rest);
    assert r.buffer == preamble + d + rest;
    FindExtend(preamble + d, rest, d);
    assert r.buffer[|preamble| + |d|..] == rest;
  }

  /** Any list of parts, written with a CR-free boundary and fed in any chunks, comes
      back with the same names and contents in order, and the reader has finished. */
  lemma FormSurvivesAnyCut(cfg: Config, preamble: bytes, parts: seq<Written>, epilogue: bytes, cut: seq<bytes>)
    requires Without(cfg.boundary, CR) && AllWritable(cfg, parts) && |parts| <= cfg.maxParts
    requires Find(preamble + cfg.Opening(), cfg.Opening()) == Some(|preamble|)
    requires Concat(cut) == EncodeForm(cfg, preamble, parts, epilogue)
    ensures var r := FeedPieces(cfg, NEW_READER, cut);
            && r.error.None? && r.finished && r.open.None? && r.partsSeen == |parts|
            && r.fields == FieldsOf(cfg, parts) && r.files == FilesOf(cfg, parts)
  {
    var tail := EncodeTail(cfg, parts, epilogue);
    var r := More(NEW_READER, Concat(cut));
    var next := NEW_READER.(buffer := tail, started := true, atBoundary := true);
    OpeningStep(cfg, preamble, tail);
    TailIsRead(cfg, next, parts, epilogue);
    assert Run(cfg, r) == Run(cfg, next) by { hide StepOf; }
    assert HeadersFit(cfg, r) by { hide StepOf, Find; }
    PiecesAsOne(cfg, NEW_READER, cut);
    hide Run, HeadersFit, StepOf, FeedPieces;
    assert [] + FieldsOf(cfg, parts) == FieldsOf(cfg, parts);
    assert [] + FilesOf(cfg, parts) == FilesOf(cfg, parts);
    assert Concat(cut) != [];
  }

  // -- a header block over the cap --------------------------------------------------------

  /** From the start of a form to the headers of its first part. */
  lemma UpToHeaders(cfg: Config, rest: bytes)
    requires cfg.maxParts >= 1
    ensures var start := NEW_READER.(started := true, partsSeen := 1);
            Run(cfg, More(NEW_READER, cfg.Opening() + CRLF + rest)) == Run(cfg, start.(buffer := rest))
  {
    var r := More(NEW_READER, [] + cfg.Opening() + (CRLF + rest));
    assert [] + cfg.Opening() == cfg.Opening() && cfg.Opening() + (CRLF + rest) == cfg.Opening() + CRLF + rest;
    FindItself(cfg.Opening());
    OpeningStep(cfg, [], CRLF + rest);
    TailStep(cfg, NEW_READER.(buffer := CRLF + rest, started := true, atBoundary := true), rest);
    hide StepOf;
  }

  lemma WholeBlockIsTaken(cfg: Config, start: Reader, raw: bytes)
    requires InHeaders(start) && start.error.None? && HeaderBlock(raw) && cfg.parse(raw).Some?
    ensures Run(cfg, start.(buffer := raw + BLANK_LINE)) == start.(buffer := [], open := Some(Part(cfg.parse(raw).value, [])))
  {
    var block := raw + BLANK_LINE;
    var next := start.(buffer := [], open := Some(Part(cfg.parse(raw).value, [])));
    assert block + [] == block;
    HeadStep(cfg, start.(buffer := block), raw, []);
    EmptyBodyWaits(cfg, next);
    hide StepOf, Find;
    assert Run(cfg, next) == next;
  }

  lemma CutBlockIsRefused(cfg: Config, start: Reader, raw: bytes)
    requires InHeaders(start) && HeaderBlock(raw) && |raw| + 3 > MAX_PART_HEADERS
    ensures var block := raw + BLANK_LINE;
            Run(cfg, start.(buffer := block[..|block| - 1])).error == Some(HeadersTooLong)
  {
    var block := raw + BLANK_LINE;
    assert block + [] == block;
    BlankLineIsFoundWhereWritten(raw, []);
    NoBlankLineBefore(block, |raw|);
    OverlongStops(cfg, start, block[..|raw| + 3]);
  }

  /** Any block over the cap: it is accepted where it arrives with its end, and refused
      where the last byte comes in a read of its own. */
  lemma OverlongHeadersRun(cfg: Config, raw: bytes)
    requires HeaderBlock(raw) && |raw| + 3 > MAX_PART_HEADERS && cfg.parse(raw).Some? && cfg.maxParts >= 1
    ensures var body := cfg.Opening() + CRLF + (raw + BLANK_LINE);
            && FeedPieces(cfg, NEW_READER, [body]).error.None? && FeedPieces(cfg, NEW_READER, [body]).open.Some?
            && FeedPieces(cfg, NEW_READER, [body[..|body| - 1], [LF]]).error == Some(HeadersTooLong)
  {
    hide FeedPieces, Run, HeaderBlock;
    var start := NEW_READER.(started := true, partsSeen := 1);
    var block := raw + BLANK_LINE;
    var body, most := cfg.Opening() + CRLF + block, block[..|block| - 1];
    WholeBlockIsTaken(cfg, start, raw);
    CutBlockIsRefused(cfg, start, raw);
    UpToHeaders(cfg, block);
    UpToHeaders(cfg, most);
    assert body[..|body| - 1] == cfg.Opening() + CRLF + most;
    FeedOne(cfg, NEW_READER, body);
    FeedTwo(cfg, body[..|body| - 1], [LF]);
    FeedIsRun(cfg, body);
  }

  lemma FeedIsRun(cfg: Config, body: bytes)
    requires body != []
    ensures Feed(cfg, NEW_READER, body) == Run(cfg, More(NEW_READER, body))
  {
  }
}
