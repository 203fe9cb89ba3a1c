/** The streaming `multipart/form-data` reader as functions on one immutable state. */
module MultipartSpec {
  import opened Bytes

  const DASH: bytes := Ascii("--")
  const BLANK_LINE: bytes := CRLF + CRLF
  const MAX_PART_HEADERS: nat := 8 * 1024

  /** What the headers of a part say; a part with a filename is a file. */
  datatype PartHead = PartHead(name: bytes, filename: Option<bytes>)

  /** The limits, and the meaning of a raw header block: `None` where it is refused. */
  datatype Config = Config(
    boundary: bytes,
    maxParts: int,
    maxFieldSize: int,
    maxFileSize: Option<int>,
    parse: bytes -> Option<PartHead>)
  {
    function Opening(): bytes { DASH + boundary }
    function Delimiter(): bytes { CRLF + DASH + boundary }
  }

  datatype MultipartError =
    | TooManyParts | MalformedBoundary | HeadersTooLong | BadPartHeaders | FileTooLarge | FieldTooLarge | Unfinished

  /** A part that has been read: its head and everything written for it. */
  datatype Part = Part(head: PartHead, content: bytes)

  datatype Reader = Reader(
    buffer: bytes,
    started: bool,
    atBoundary: bool,
    finished: bool,
    partsSeen: nat,
    open: Option<Part>,
    fields: seq<Part>,
    files: seq<Part>,
    error: Option<MultipartError>)

  const NEW_READER := Reader([], false, false, false, 0, None, [], [], None)

  // -- states ------------------------------------------------------------------

  /** `Moved` is the `True` that keeps `feed` looping. */
  datatype Step = Moved(next: Reader) | Stuck(next: Reader) | Raised(error: MultipartError)

  function FindFirstBoundary(cfg: Config, r: Reader): Step {
    match Find(r.buffer, cfg.Opening())
    case None => Stuck(r.(buffer := TrimPreamble(r.buffer, |cfg.Opening()|)))
    case Some(i) => Moved(r.(buffer := r.buffer[i + |cfg.Opening()|..], started := true, atBoundary := true))
  }

  function TrimPreamble(buffer: bytes, keep: nat): bytes {
    if |buffer| > keep then buffer[|buffer| - keep..] else buffer
  }

  function ConsumeBoundaryTail(cfg: Config, r: Reader): Step {
    if DASH <= r.buffer then Stuck(r.(finished := true))
    else if CRLF <= r.buffer then
      if r.partsSeen + 1 > cfg.maxParts then Raised(TooManyParts)
      else Moved(r.(buffer := r.buffer[2..], atBoundary := false, partsSeen := r.partsSeen + 1))
    else if |r.buffer| < 2 then Stuck(r)
    else Raised(MalformedBoundary)
  }

  function ReadHeaders(cfg: Config, r: Reader): Step {
    match Find(r.buffer, BLANK_LINE)
    case None => if |r.buffer| > MAX_PART_HEADERS then Raised(HeadersTooLong) else Stuck(r)
    case Some(end) =>
      match cfg.parse(r.buffer[..end])
      case None => Raised(BadPartHeaders)
      case Some(head) => Moved(r.(buffer := r.buffer[end + 4..], open := Some(Part(head, []))))
  }

  datatype Emitted = Emitted(part: Part) | TooLarge(error: MultipartError)

  /** `data` written to the open part, within the limit of its kind. */
  function Emit(cfg: Config, p: Part, data: bytes): Emitted {
    if data == [] then Emitted(p)
    else if p.head.filename.Some? then
      if cfg.maxFileSize.Some? && |p.content| + |data| > cfg.maxFileSize.value then TooLarge(FileTooLarge)
      else Emitted(p.(content := p.content + data))
    else if |p.content| + |data| > cfg.maxFieldSize then TooLarge(FieldTooLarge)
    else Emitted(p.(content := p.content + data))
  }

  /** How much of a body without a delimiter cannot become part of one. */
  function Available(cfg: Config, buffer: bytes): nat {
    var keep := |cfg.Delimiter()| - 1;
    if |buffer| > keep then |buffer| - keep else 0
  }

  function ReadBody(cfg: Config, r: Reader): Step
    requires r.open.Some?
  {
    match Find(r.buffer, cfg.Delimiter())
    case None =>
      var n := Available(cfg, r.buffer);
      (match Emit(cfg, r.open.value, r.buffer[..n])
       case TooLarge(e) => Raised(e)
       case Emitted(p) => Stuck(r.(buffer := r.buffer[n..], open := Some(p))))
    case Some(i) =>
      match Emit(cfg, r.open.value, r.buffer[..i])
      case TooLarge(e) => Raised(e)
      case Emitted(p) => Moved(ClosePart(r, p).(buffer := r.buffer[i + |cfg.Delimiter()|..], atBoundary := true))
  }

  function ClosePart(r: Reader, p: Part): Reader {
    if p.head.filename.Some? then r.(files := r.files + [p], open := None)
    else r.(fields := r.fields + [p], open := None)
  }

  function StepOf(cfg: Config, r: Reader): (s: Step)
    ensures s.Moved? ==> |s.next.buffer| < |r.buffer|
  {
    if r.finished then Stuck(r)
    else if !r.started then FindFirstBoundary(cfg, r)
    else if r.atBoundary then ConsumeBoundaryTail(cfg, r)
    else if r.open.None? then ReadHeaders(cfg, r)
    else ReadBody(cfg, r)
  }

  /** The loop of `feed`. */
  function Run(cfg: Config, r: Reader): Reader
    decreases |r.buffer|
  {
    match StepOf(cfg, r)
    case Moved(next) => Run(cfg, next)
    case Stuck(next) => next
    case Raised(e) => r.(error := Some(e))
  }

  /** After an exception the reader is never fed again. */
  function Feed(cfg: Config, r: Reader, chunk: bytes): Reader {
    if r.error.Some? || r.finished || chunk == [] then r else Run(cfg, r.(buffer := r.buffer + chunk))
  }

  function FeedPieces(cfg: Config, r: Reader, pieces: seq<bytes>): Reader
    decreases |pieces|
  {
    if pieces == [] then r else FeedPieces(cfg, Feed(cfg, r, pieces[0]), pieces[1..])
  }

  /** What a caller can tell apart: the error if there is one, and otherwise the whole
      state, except for the epilogue that a finished reader ignores. */
  function Observed(r: Reader): Reader {
    if r.error.Some? then NEW_READER.(error := r.error)
    else if r.finished then r.(buffer := [])
    else r
  }

  /** A part is open only between its headers and its delimiter. */
  predicate Shaped(r: Reader) { (r.finished || r.atBoundary || !r.started) && r.error.None? ==> r.open.None? }

  lemma StepKeepsShape(cfg: Config, r: Reader)
    requires Shaped(r) && r.error.None?
    ensures match StepOf(cfg, r)
            case Moved(next) => Shaped(next) && next.error.None?
            case Stuck(next) => Shaped(next)
            case Raised(_) => true
  {
    hide Find, Emit;
  }

  lemma {:induction false} RunKeepsShape(cfg: Config, r: Reader)
    requires Shaped(r) && r.error.None?
    ensures Shaped(Run(cfg, r))
    decreases |r.buffer|
  {
    StepKeepsShape(cfg, r);
    hide StepOf;
    if StepOf(cfg, r).Moved? {
      RunKeepsShape(cfg, StepOf(cfg, r).next);
    }
  }

  lemma {:induction false} PiecesKeepShape(cfg: Config, r: Reader, pieces: seq<bytes>)
    requires Shaped(r)
    ensures Shaped(FeedPieces(cfg, r, pieces))
    decreases |pieces|
  {
    if pieces != [] {
      if r.error.None? {
        RunKeepsShape(cfg, r.(buffer := r.buffer + pieces[0]));
      }
      hide Run;
      PiecesKeepShape(cfg, Feed(cfg, r, pieces[0]), pieces[1..]);
    }
  }

  // -- the limits, in every state ------------------------------------------------

  predicate SizeFits(cfg: Config, head: PartHead, size: nat) {
    size == 0 ||
    if head.filename.Some? then cfg.maxFileSize.Some? ==> size <= cfg.maxFileSize.value
    else size <= cfg.maxFieldSize
  }

  predicate PartFits(cfg: Config, p: Part) { SizeFits(cfg, p.head, |p.content|) }

  /** Every part, the open one included, is within the limit of its kind; there are no
      more parts than allowed; and files and fields are told apart by their filename. */
  predicate WithinLimits(cfg: Config, r: Reader) {
    r.error.None? ==>
      && (forall i :: 0 <= i < |r.fields| ==> PartFits(cfg, r.fields[i]) && r.fields[i].head.filename.None?)
      && (forall i :: 0 <= i < |r.files| ==> PartFits(cfg, r.files[i]) && r.files[i].head.filename.Some?)
      && (r.open.Some? ==> PartFits(cfg, r.open.value))
      && (r.partsSeen > 0 ==> r.partsSeen <= cfg.maxParts)
      && |r.fields| + |r.files| + (if InPart(r) then 1 else 0) == r.partsSeen
  }

  predicate InPart(r: Reader) { r.started && !r.atBoundary }

  lemma EmitFits(cfg: Config, p: Part, data: bytes)
    requires PartFits(cfg, p)
    ensures Emit(cfg, p, data).Emitted? ==>
              PartFits(cfg, Emit(cfg, p, data).part) && Emit(cfg, p, data).part.head == p.head
  {
  }

  lemma StepKeepsLimits(cfg: Config, r: Reader)
    requires WithinLimits(cfg, r) && Shaped(r) && r.error.None?
    ensures match StepOf(cfg, r)
            case Moved(next) => WithinLimits(cfg, next)
            case Stuck(next) => WithinLimits(cfg, next)
            case Raised(_) => true
  {
    if r.open.Some? && !r.finished && InPart(r) {
      var i := Find(r.buffer, cfg.Delimiter());
      EmitFits(cfg, r.open.value, if i.Some? then r.buffer[..i.value] else r.buffer[..Available(cfg, r.buffer)]);
    }
    hide Find, Emit, PartFits, Available;
  }

  lemma {:induction false} RunKeepsLimits(cfg: Config, r: Reader)
    requires WithinLimits(cfg, r) && Shaped(r) && r.error.None?
    ensures WithinLimits(cfg, Run(cfg, r))
    decreases |r.buffer|
  {
    StepKeepsLimits(cfg, r);
    StepKeepsShape(cfg, r);
    hide StepOf, PartFits;
    if StepOf(cfg, r).Moved? {
      RunKeepsLimits(cfg, StepOf(cfg, r).next);
    }
  }

  /** However a body arrives, what it costs stays within the limits. */
  lemma {:induction false} PiecesKeepLimits(cfg: Config, r: Reader, pieces: seq<bytes>)
    requires WithinLimits(cfg, r) && Shaped(r)
    ensures WithinLimits(cfg, FeedPieces(cfg, r, pieces))
    decreases |pieces|
  {
    if pieces != [] {
      if r.error.None? {
        var fed := r.(buffer := r.buffer + pieces[0]);
        RunKeepsLimits(cfg, fed);
        RunKeepsShape(cfg, fed);
      }
      hide Run, WithinLimits;
      PiecesKeepLimits(cfg, Feed(cfg, r, pieces[0]), pieces[1..]);
    }
  }
}
