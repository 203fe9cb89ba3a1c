/** Where a form is refused: behind a boundary, in the headers of a part, by its sizes, and
    at its end. */
module MultipartRefusals {
  import opened Bytes
  import opened MultipartSpec

  // -- behind a boundary ---------------------------------------------------------------------

  predicate BehindBoundary(r: Reader) { r.started && r.atBoundary && !r.finished && r.error.None? }

  /** The step from here is what these bytes call for. */
  predicate Fails(cfg: Config, r: Reader, e: MultipartError) { Run(cfg, r) == r.(error := Some(e)) }

  lemma DashesAre(b: bytes)
    ensures DASH <= b <==> |b| >= 2 && b[0] == 45 && b[1] == 45
    ensures CRLF <= b <==> |b| >= 2 && b[0] == 13 && b[1] == 10
  {
    assert DASH == [45, 45];
  }

  /** Two dashes end the form, a line end opens one more part if there may be one, and any
      other two bytes are refused; fewer are waited for. */
  lemma BoundaryTailIs(cfg: Config, r: Reader)
    requires BehindBoundary(r)
    ensures var b := r.buffer;
            if |b| < 2 then Run(cfg, r) == r
            else if b[0] == 45 && b[1] == 45 then Run(cfg, r) == r.(finished := true)
            else if !(b[0] == 13 && b[1] == 10) then Fails(cfg, r, MalformedBoundary)
            else if r.partsSeen >= cfg.maxParts then Fails(cfg, r, TooManyParts)
            else Run(cfg, r) == Run(cfg, r.(buffer := b[2..], atBoundary := false, partsSeen := r.partsSeen + 1))
  {
    DashesAre(r.buffer);
    assert StepOf(cfg, r) == ConsumeBoundaryTail(cfg, r);
    hide DASH;
  }

  // -- the headers of a part ---------------------------------------------------------------------

  predicate BeforeHeaders(r: Reader) { r.started && !r.atBoundary && !r.finished && r.open.None? && r.error.None? }

  /** Without their end, the headers are waited for up to 8192 bytes and refused beyond; with
      it, they open the part that they name, or are refused. */
  lemma HeadersAre(cfg: Config, r: Reader)
    requires BeforeHeaders(r)
    ensures var end := Find(r.buffer, CRLF + CRLF);
            if end.None? then if |r.buffer| > 8192 then Fails(cfg, r, HeadersTooLong) else Run(cfg, r) == r
            else
              match cfg.parse(r.buffer[..end.value])
              case None => Fails(cfg, r, BadPartHeaders)
              case Some(head) => Run(cfg, r) == Run(cfg, r.(buffer := r.buffer[end.value + 4..], open := Some(Part(head, []))))
  {
    hide Find;
    assert StepOf(cfg, r) == ReadHeaders(cfg, r);
  }

  // -- the content ----------------------------------------------------------------------------------

  /** The bytes that are written: up to the delimiter, or all but what may be its start. */
  function Written(cfg: Config, b: bytes): bytes {
    match Find(b, CRLF + Ascii("--") + cfg.boundary)
    case Some(i) => b[..i]
    case None => var keep := |cfg.boundary| + 3; if |b| > keep then b[..|b| - keep] else []
  }

  predicate InContent(r: Reader) { r.started && !r.atBoundary && !r.finished && r.open.Some? && r.error.None? }

  /** Too much: a file over its limit, if there is one, or a field over its own. */
  predicate TooMuch(cfg: Config, head: PartHead, size: nat) {
    if head.filename.Some? then cfg.maxFileSize.Some? && size > cfg.maxFileSize.value else size > cfg.maxFieldSize
  }

  /** Content is refused exactly where something is written that makes the part too large. */
  lemma ContentIsRefusedIff(cfg: Config, r: Reader)
    requires InContent(r)
    ensures var part, written := r.open.value, Written(cfg, r.buffer);
            var e := if part.head.filename.Some? then FileTooLarge else FieldTooLarge;
            if written != [] && TooMuch(cfg, part.head, |part.content| + |written|) then Fails(cfg, r, e)
            else StepOf(cfg, r).Moved? || StepOf(cfg, r).Stuck?
  {
    assert cfg.Delimiter() == CRLF + Ascii("--") + cfg.boundary;
    assert |cfg.Delimiter()| == |cfg.boundary| + 4;
    hide Find;
    assert StepOf(cfg, r) == ReadBody(cfg, r);
  }
}
