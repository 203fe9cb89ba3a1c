/** The multipart reader in its own form: it cuts its buffer in place, opens an upload
    per file part, queues writes, and owns every upload until it hands it over. */
module Multipart {
  import opened Bytes
  import opened MultipartSpec

  /** One uploaded file; the spooled file behind it is its content. */
  class UploadFile {
    const head: PartHead
    var content: bytes
    var size: nat
    var closed: bool

    ghost predicate Valid()
      reads this
    {
      size == |content|
    }

    constructor (head: PartHead)
      ensures this.head == head && content == [] && !closed && Valid()
    {
      this.head, content, size, closed := head, [], 0, false;
    }

    method Write(data: bytes)
      requires Valid()
      modifies this`content, this`size
      ensures Valid() && content == old(content) + data
    {
      if data == [] {
        return;
      }
      size := size + |data|;
      content := content + data;
    }

    method Close()
      modifies this`closed
      ensures closed
    {
      closed := true;
    }
  }

  datatype PendingWrite = PendingWrite(file: UploadFile, data: bytes)

  /** Everything queued for one file, in order. */
  function PendingFor(pending: seq<PendingWrite>, file: UploadFile): bytes {
    if pending == [] then []
    else (if pending[0].file == file then pending[0].data else []) + PendingFor(pending[1..], file)
  }

  lemma PendingSnoc(pending: seq<PendingWrite>, w: PendingWrite, file: UploadFile)
    ensures PendingFor(pending + [w], file) == PendingFor(pending, file) + if w.file == file then w.data else []
  {
    if pending == [] {
      assert pending + [w] == [w];
      assert [w][1..] == [];
    } else {
      assert (pending + [w])[1..] == pending[1..] + [w];
      PendingSnoc(pending[1..], w, file);
    }
  }

  function PendingSize(pending: seq<PendingWrite>, file: UploadFile): (n: nat)
    ensures n == |PendingFor(pending, file)|
  {
    if pending == [] then 0
    else (if pending[0].file == file then |pending[0].data| else 0) + PendingSize(pending[1..], file)
  }

  lemma NothingPending(pending: seq<PendingWrite>, file: UploadFile)
    requires forall i :: 0 <= i < |pending| ==> pending[i].file != file
    ensures PendingFor(pending, file) == []
  {
  }

  /** Written so far plus queued: all the bytes emitted for the file. */
  ghost function Whole(pending: seq<PendingWrite>, file: UploadFile): bytes
    reads file
  {
    file.content + PendingFor(pending, file)
  }

  ghost function AsPart(pending: seq<PendingWrite>, file: UploadFile): Part
    reads file
  {
    Part(file.head, Whole(pending, file))
  }

  class FormReader {
    const cfg: Config
    var buffer: bytes
    var started: bool
    var atBoundary: bool
    var finished: bool
    var partsSeen: nat
    var part: Option<PartHead>
    var target: UploadFile?
    var text: bytes
    var pending: seq<PendingWrite>
    var fields: seq<Part>
    var files: seq<UploadFile>
    ghost var uploads: set<UploadFile>

    /** Ownership: every upload ever uploads is in the result list or in flight, still
        open, and in only one of the two. */
    ghost predicate Valid()
      reads this, uploads
    {
      && uploads == (set f | f in files) + (if target == null then {} else {target})
      && (forall f :: f in uploads ==> f.Valid() && !f.closed)
      && (target != null ==> target !in files && part == Some(target.head) && target.head.filename.Some?)
      && (target == null && part.Some? ==> part.value.filename.None?)
      && (forall i, j :: 0 <= i < j < |files| ==> files[i] != files[j])
      && (forall i :: 0 <= i < |files| ==> files[i].head.filename.Some?)
      && (forall i :: 0 <= i < |pending| ==> pending[i].file in uploads)
    }

    ghost function OpenPart(): Option<Part>
      reads this, uploads
      requires Valid()
    {
      if part.None? then None
      else if target != null then Some(AsPart(pending, target))
      else Some(Part(part.value, text))
    }

    ghost function Files(): seq<Part>
      reads this, uploads
      requires Valid()
    {
      seq(|files|, i requires 0 <= i < |files| && files[i] in uploads reads this, uploads => AsPart(pending, files[i]))
    }

    ghost function State(): Reader
      reads this, uploads
      requires Valid()
    {
      Reader(buffer, started, atBoundary, finished, partsSeen, OpenPart(), fields, Files(), None)
    }

    constructor (cfg: Config)
      ensures Valid() && State() == NEW_READER && uploads == {} && pending == [] && this.cfg == cfg
    {
      this.cfg := cfg;
      buffer, started, atBoundary, finished, partsSeen := [], false, false, false, 0;
      part, target, text, pending, fields, files, uploads := None, null, [], [], [], [], {};
    }

    /** The outcome of a loop of steps from `s`: no error and the final state, or the
        error that was raised. */
    ghost predicate Ran(s: Reader, error: Option<MultipartError>)
      reads this, uploads
      requires Valid()
    {
      var r := Run(cfg, s);
      r.error == error && (error.None? ==> State() == r)
    }

    method Feed(chunk: bytes) returns (error: Option<MultipartError>)
      requires Valid()
      modifies this
      ensures Valid() && fresh(uploads - old(uploads)) && old(uploads) <= uploads
      ensures var r := MultipartSpec.Feed(cfg, old(State()), chunk);
              r.error == error && (error.None? ==> State() == r)
    {
      if finished || chunk == [] {
        return None;
      }
      buffer := buffer + chunk;
      ghost var start := State();
      assert start == old(State()).(buffer := old(buffer) + chunk);
      hide StepOf;
      error := None;
      var going := true;
      while going
        invariant Valid() && fresh(uploads - old(uploads)) && old(uploads) <= uploads
        invariant error.Some? ==> !going
        invariant if going then Run(cfg, start) == Run(cfg, State()) || (Run(cfg, start).error.Some? && Run(cfg, start).error == Run(cfg, State()).error)
                  else Run(cfg, start).error == error && (error.None? ==> State() == Run(cfg, start))
        decreases if going then |buffer| + 1 else 0
      {
        ghost var before := State();
        going, error := DoStep();
      }
    }

    /** One step: whether to go on, or the exception. */
    method DoStep() returns (going: bool, error: Option<MultipartError>)
      requires Valid()
      modifies this
      ensures Valid() && fresh(uploads - old(uploads)) && old(uploads) <= uploads
      ensures match StepOf(cfg, old(State()))
              case Moved(next) => going && error == None && State() == next
              case Stuck(next) => !going && error == None && State() == next
              case Raised(e) => !going && error == Some(e)
    {
      if finished {
        return false, None;
      }
      if !started {
        going := SeekFirstBoundary();
        return going, None;
      }
      if atBoundary {
        going, error := TakeBoundaryTail();
        return;
      }
      if part.None? {
        going, error := TakeHeaders();
        return;
      }
      going, error := TakeBody();
    }

    method SeekFirstBoundary() returns (going: bool)
      requires Valid()
      modifies this`buffer, this`started, this`atBoundary
      ensures Valid()
      ensures match FindFirstBoundary(cfg, old(State()))
              case Moved(next) => going && State() == next
              case Stuck(next) => !going && State() == next
              case Raised(_) => false
    {
      hide Find;
      var opening := cfg.Opening();
      var index := Find(buffer, opening);
      if index.None? {
        buffer := TrimPreamble(buffer, |opening|);
        return false;
      }
      buffer := buffer[index.value + |opening|..];
      started, atBoundary := true, true;
      return true;
    }

    method TakeBoundaryTail() returns (going: bool, error: Option<MultipartError>)
      requires Valid()
      modifies this`buffer, this`finished, this`atBoundary, this`partsSeen
      ensures Valid()
      ensures match ConsumeBoundaryTail(cfg, old(State()))
              case Moved(next) => going && error == None && State() == next
              case Stuck(next) => !going && error == None && State() == next
              case Raised(e) => !going && error == Some(e)
    {
      if DASH <= buffer {
        finished := true;
        return false, None;
      }
      if CRLF <= buffer {
        buffer := buffer[2..];
        atBoundary, partsSeen := false, partsSeen + 1;
        if partsSeen > cfg.maxParts {
          return false, Some(TooManyParts);
        }
        return true, None;
      }
      if |buffer| < 2 {
        return false, None;
      }
      return false, Some(MalformedBoundary);
    }

    method TakeHeaders() returns (going: bool, error: Option<MultipartError>)
      requires Valid() && part.None?
      modifies this
      ensures Valid() && fresh(uploads - old(uploads)) && old(uploads) <= uploads
      ensures match ReadHeaders(cfg, old(State()))
              case Moved(next) => going && error == None && State() == next
              case Stuck(next) => !going && error == None && State() == next
              case Raised(e) => !going && error == Some(e)
    {
      hide Find;
      var end := Find(buffer, BLANK_LINE);
      if end.None? {
        if |buffer| > MAX_PART_HEADERS {
          return false, Some(HeadersTooLong);
        }
        return false, None;
      }
      var raw := buffer[..end.value];
      var head := cfg.parse(raw);
      if head.None? {
        return false, Some(BadPartHeaders);
      }
      ghost var before := Files();
      buffer := buffer[end.value + 4..];
      OpenTarget(head.value);
      assert Files() == before;
      return true, None;
    }

    method OpenTarget(head: PartHead)
      requires Valid() && part.None?
      modifies this`part, this`target, this`text, this`uploads
      ensures Valid() && fresh(uploads - old(uploads)) && old(uploads) <= uploads
      ensures OpenPart() == Some(Part(head, [])) && Files() == old(Files())
    {
      part := Some(head);
      if head.filename.None? {
        text, target := [], null;
        return;
      }
      var upload := new UploadFile(head);
      target := upload;
      uploads := uploads + {upload};
      NothingPending(pending, upload);
      assert [] + PendingFor(pending, upload) == [];
    }

    method TakeBody() returns (going: bool, error: Option<MultipartError>)
      requires Valid() && part.Some?
      modifies this
      ensures Valid() && uploads == old(uploads)
      ensures match ReadBody(cfg, old(State()))
              case Moved(next) => going && error == None && State() == next
              case Stuck(next) => !going && error == None && State() == next
              case Raised(e) => !going && error == Some(e)
    {
      hide Find, Emit;
      var index := Find(buffer, cfg.Delimiter());
      if index.None? {
        error := HoldBack(Available(cfg, buffer));
        return false, error;
      }
      error := CutBody(index.value);
      return error.None?, error;
    }

    /** Hold back what could still turn into the delimiter; write out the rest. */
    method HoldBack(n: nat) returns (error: Option<MultipartError>)
      requires Valid() && part.Some? && n <= |buffer|
      modifies this`pending, this`text, this`buffer
      ensures Valid()
      ensures match Emit(cfg, old(OpenPart()).value, old(buffer[..n]))
              case TooLarge(e) => error == Some(e)
              case Emitted(p) => error == None && State() == old(State()).(buffer := old(buffer[n..]), open := Some(p))
    {
      hide Emit;
      error := WriteOut(buffer[..n]);
      if error.None? {
        buffer := buffer[n..];
      }
    }

    method MoveToBoundary(n: nat)
      requires Valid() && part.Some? && n <= |buffer|
      modifies this`buffer, this`atBoundary
      ensures Valid() && OpenPart() == old(OpenPart())
      ensures State() == old(State()).(buffer := old(buffer[n..]), atBoundary := true)
    {
      buffer, atBoundary := buffer[n..], true;
    }

    /** The delimiter is at `i`: the part ends there. */
    method CutBody(i: nat) returns (error: Option<MultipartError>)
      requires Valid() && part.Some? && i + |cfg.Delimiter()| <= |buffer|
      modifies this
      ensures Valid() && uploads == old(uploads)
      ensures match Emit(cfg, old(OpenPart()).value, old(buffer[..i]))
              case TooLarge(e) => error == Some(e)
              case Emitted(p) =>
                && error == None
                && State() == ClosePart(old(State()), p).(buffer := old(buffer[i + |cfg.Delimiter()|..]), atBoundary := true)
    {
      hide Emit;
      ghost var start := State();
      error := HoldBack(i);
      if error.Some? {
        return;
      }
      ghost var p := OpenPart().value;
      MoveToBoundary(|cfg.Delimiter()|);
      FinishPart();
    }

    /** `_emit`: nothing for no data, a queued write for a file, text for a field. */
    method WriteOut(data: bytes) returns (error: Option<MultipartError>)
      requires Valid() && part.Some?
      modifies this`pending, this`text
      ensures Valid() && Files() == old(Files())
      ensures match Emit(cfg, old(OpenPart()).value, data)
              case Emitted(p) => error == None && OpenPart() == Some(p)
              case TooLarge(e) => error == Some(e)
    {
      if data == [] {
        return None;
      }
      if target != null {
        var written := target.size + PendingSize(pending, target);
        if cfg.maxFileSize.Some? && written + |data| > cfg.maxFileSize.value {
          return Some(FileTooLarge);
        }
        ghost var was := pending;
        pending := pending + [PendingWrite(target, data)];
        forall f: UploadFile ensures PendingFor(pending, f) == PendingFor(was, f) + if f == target then data else [] {
          PendingSnoc(was, PendingWrite(target, data), f);
        }
        assert target.content + PendingFor(was, target) + data == target.content + PendingFor(pending, target);
        forall i | 0 <= i < |files| ensures PendingFor(pending, files[i]) == PendingFor(was, files[i]) {
          assert files[i] != target;
        }
        return None;
      }
      if |text| + |data| > cfg.maxFieldSize {
        return Some(FieldTooLarge);
      }
      text := text + data;
      return None;
    }

    method FinishPart()
      requires Valid() && part.Some?
      modifies this`part, this`target, this`text, this`fields, this`files
      ensures Valid() && uploads == old(uploads)
      ensures State() == ClosePart(old(State()), old(OpenPart()).value)
    {
      if target != null {
        files := files + [target];
      } else {
        fields := fields + [Part(part.value, text)];
      }
      part, target, text := None, null, [];
    }

    /** Perform the queued writes: nothing the parser emitted changes, it only moves
        from the queue into the files. */
    method Drain()
      requires Valid()
      modifies this`pending, uploads
      ensures Valid() && pending == [] && State() == old(State())
      ensures forall f :: f in uploads ==> f.content == old(Whole(pending, f))
    {
      DrainWrites();
      assert forall i :: 0 <= i < |files| ==> AsPart(pending, files[i]) == old(AsPart(pending, files[i]));
      assert Files() == old(Files());
      assert OpenPart() == old(OpenPart());
    }

    method DrainWrites()
      requires Valid()
      modifies this`pending, uploads
      ensures Valid() && pending == []
      ensures forall f :: f in uploads ==> f.content == old(Whole(pending, f)) && Whole(pending, f) == f.content
    {
      for i := 0 to |pending|
        invariant pending == old(pending)
        invariant Valid()
        invariant forall f :: f in uploads ==>
                    f.content + PendingFor(pending[i..], f) == old(Whole(pending, f))
      {
        PerformWrite(i);
      }
      assert pending[|pending|..] == [];
      pending := [];
      assert forall f :: f in uploads ==> f.content + [] == f.content;
    }

    method PerformWrite(i: nat)
      requires Valid() && i < |pending|
      modifies pending[i].file
      ensures Valid()
      ensures forall f :: f in uploads ==>
                f.content + PendingFor(pending[i + 1..], f) == old(f.content + PendingFor(pending[i..], f))
    {
      var w := pending[i];
      ghost var rest := pending[i + 1..];
      assert pending[i..][0] == w && pending[i..][1..] == rest;
      ghost var before := w.file.content;
      w.file.Write(w.data);
      assert w.file.content + PendingFor(rest, w.file) == before + (w.data + PendingFor(rest, w.file));
      assert forall f :: PendingFor(pending[i..], f) == (if f == w.file then w.data else []) + PendingFor(rest, f);
    }
  }

  // -- parse_multipart ---------------------------------------------------------

  datatype FormError = Parse(error: MultipartError) | Interrupted | DiskFull

  datatype FormResult = Form(fields: seq<Part>, files: seq<UploadFile>) | FormFailed(error: FormError)

  /** Reads the whole stream. `broken(i)` says that performing the writes of chunk `i`
      raises, `interrupted` that the stream itself raises after the last chunk.

      On success every upload ever opened is in the result, open, and holds exactly the
      bytes of its part; on any failure every upload ever opened has been closed. */
  method ParseMultipart(cfg: Config, chunks: seq<bytes>, broken: nat -> bool, interrupted: bool)
    returns (r: FormResult, ghost uploads: set<UploadFile>)
    ensures fresh(uploads)
    ensures r.Form? ==>
              && (forall i :: 0 <= i < |chunks| ==> !broken(i)) && !interrupted
              && uploads == (set f | f in r.files) && (forall f :: f in uploads ==> !f.closed)
              && (forall i, j :: 0 <= i < j < |r.files| ==> r.files[i] != r.files[j])
              && var s := FeedPieces(cfg, NEW_READER, chunks);
                 && s.error.None? && s.finished && s.open.None?
                 && r.fields == s.fields && |r.files| == |s.files|
                 && forall i :: 0 <= i < |r.files| ==> s.files[i] == Part(r.files[i].head, r.files[i].content)
    ensures r.FormFailed? ==> forall f :: f in uploads ==> f.closed
    ensures r.FormFailed? && r.error.Parse? ==>
              var s := FeedPieces(cfg, NEW_READER, chunks);
              s.error == Some(r.error.error) || (s.error.None? && !s.finished && r.error.error == Unfinished)
  {
    hide Run, StepOf;
    var reader := new FormReader(cfg);
    var failure := ConsumeStream(reader, chunks, broken);
    if failure.None? {
      PiecesKeepShape(cfg, NEW_READER, chunks);
      if interrupted {
        failure := Some(Interrupted);
      } else if !reader.finished {
        failure := Some(Parse(Unfinished));
      }
    }
    uploads := reader.uploads;
    if failure.Some? {
      CloseAll(reader);
      return FormFailed(failure.value), uploads;
    }
    return Form(reader.fields, reader.files), uploads;
  }

  /** Feed and drain chunk by chunk: queued writes never outlive their chunk. */
  method ConsumeStream(reader: FormReader, chunks: seq<bytes>, broken: nat -> bool) returns (failure: Option<FormError>)
    requires reader.Valid() && reader.State() == NEW_READER && reader.uploads == {} && reader.pending == []
    modifies reader
    ensures reader.Valid() && fresh(reader.uploads)
    ensures var s := FeedPieces(reader.cfg, NEW_READER, chunks);
            match failure
            case None => reader.State() == s && reader.pending == [] && forall k :: 0 <= k < |chunks| ==> !broken(k)
            case Some(Parse(e)) => s.error == Some(e)
            case Some(DiskFull) => true
            case Some(Interrupted) => false
  {
    hide MultipartSpec.Feed;
    ghost var all := FeedPieces(reader.cfg, NEW_READER, chunks);
    for i := 0 to |chunks|
      invariant reader.Valid() && fresh(reader.uploads) && reader.pending == []
      invariant all == FeedPieces(reader.cfg, reader.State(), chunks[i..])
      invariant forall k :: 0 <= k < i ==> !broken(k)
    {
      ghost var fed := MultipartSpec.Feed(reader.cfg, reader.State(), chunks[i]);
      assert chunks[i..][1..] == chunks[i + 1..];
      var error := reader.Feed(chunks[i]);
      if error.Some? {
        StaysFailed(reader.cfg, fed, chunks[i + 1..]);
        return Some(Parse(error.value));
      }
      if broken(i) {
        return Some(DiskFull);
      }
      reader.Drain();
    }
    assert chunks[|chunks|..] == [];
    return None;
  }

  lemma StaysFailed(cfg: Config, r: Reader, pieces: seq<bytes>)
    requires r.error.Some?
    ensures FeedPieces(cfg, r, pieces) == r
    decreases |pieces|
  {
  }

  /** The files handed over so far and the one in flight. */
  method CloseAll(reader: FormReader)
    requires reader.Valid()
    modifies reader.uploads
    ensures forall f :: f in reader.uploads ==> f.closed
  {
    for i := 0 to |reader.files|
      invariant forall k :: 0 <= k < i ==> reader.files[k].closed
      invariant reader.files == old(reader.files) && reader.uploads == old(reader.uploads) && reader.target == old(reader.target)
    {
      reader.files[i].Close();
    }
    if reader.target != null {
      reader.target.Close();
    }
  }
}
