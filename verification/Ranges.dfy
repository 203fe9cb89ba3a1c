/** Byte ranges: which part of a file a `Range` header asks for, and the loop that sends
    it block by block. */
module Ranges {
  import opened Bytes
  import opened ParserSpec
  import opened ExchangeSpec
  import opened ExchangeFraming
  import opened ExchangeResults

  // -- `int()` and `strip()` on header text --------------------------------------------

  /** White space among the code points 0 to 255. */
  predicate IsBlank(b: byte) { 9 <= b <= 13 || 28 <= b <= 32 || b == 133 || b == 160 }

  function TrimLeft(s: bytes): bytes { if s != [] && IsBlank(s[0]) then TrimLeft(s[1..]) else s }

  function TrimRight(s: bytes): bytes { if s != [] && IsBlank(s[|s| - 1]) then TrimRight(s[..|s| - 1]) else s }

  function Trim(s: bytes): bytes { TrimRight(TrimLeft(s)) }

  const UNDERSCORE: byte := 95
  const MINUS: byte := 45
  const PLUS: byte := 43
  const EQUALS: byte := 61
  const COMMA: byte := 44

  /** Digits, with single underscores between them. */
  predicate IsGrouped(s: bytes) {
    && s != [] && IsDigit(s[0]) && IsDigit(s[|s| - 1])
    && (forall i :: 0 <= i < |s| ==> IsDigit(s[i]) || s[i] == UNDERSCORE)
    && forall i :: 0 <= i < |s| - 1 ==> IsDigit(s[i]) || IsDigit(s[i + 1])
  }

  function DropUnderscores(s: bytes): bytes {
    if s == [] then [] else (if s[0] == UNDERSCORE then [] else [s[0]]) + DropUnderscores(s[1..])
  }

  lemma {:induction false} GroupedIsNumeral(s: bytes)
    requires forall i :: 0 <= i < |s| ==> IsDigit(s[i]) || s[i] == UNDERSCORE
    ensures var d := DropUnderscores(s); forall i :: 0 <= i < |d| ==> IsDigit(d[i])
    ensures s != [] && IsDigit(s[0]) ==> DropUnderscores(s) != []
  {
    if s != [] { GroupedIsNumeral(s[1..]); }
  }

  /** The interpreter refuses longer numerals. */
  const MAX_DIGITS: nat := 4300

  /** `int(s)`, or `None` where it raises ValueError. */
  function PyInt(s: bytes): Option<int> {
    var t := Trim(s);
    var signed := t != [] && (t[0] == MINUS || t[0] == PLUS);
    var digits := if signed then t[1..] else t;
    if !IsGrouped(digits) then None
    else
      GroupedIsNumeral(digits);
      var plain := DropUnderscores(digits);
      if |plain| > MAX_DIGITS then None
      else
        var value: int := NumeralValue(plain, 10);
        Some(if signed && t[0] == MINUS then -value else value)
  }

  // -- the header --------------------------------------------------------------------------

  datatype RangeAnswer = NoRange | Unsatisfiable | Part(first: int, last: int)

  function ParseRange(header: Option<bytes>, size: nat): RangeAnswer {
    if header.None? || header.value == [] then NoRange
    else
      var h := header.value;
      var eq := IndexOf(h, EQUALS);
      var units := if eq.Some? then h[..eq.value] else h;
      var rest := if eq.Some? then h[eq.value + 1..] else [];
      if Lower(Trim(units)) != Ascii("bytes") || !Without(rest, COMMA) then NoRange
      else AnswerRange(Trim(rest), size)
  }

  function AnswerRange(r: bytes, size: nat): RangeAnswer {
    match IndexOf(r, MINUS)
    case None => NoRange
    case Some(i) =>
      var first, last := r[..i], r[i + 1..];
      if first == [] then
        match PyInt(last)
        case None => NoRange
        case Some(length) =>
          if length <= 0 || size == 0 then Unsatisfiable
          else Part(if size - length > 0 then size - length else 0, size - 1)
      else
        match PyInt(first)
        case None => NoRange
        case Some(start) =>
          match if last == [] then Some(size - 1) else PyInt(last)
          case None => NoRange
          case Some(end) =>
            if start >= size || start > end then Unsatisfiable
            else Part(start, if end < size - 1 then end else size - 1)
  }

  lemma {:induction false} TrimLeftKeeps(s: bytes)
    ensures forall b: byte :: Without(s, b) ==> Without(TrimLeft(s), b)
  {
    if s != [] && IsBlank(s[0]) { TrimLeftKeeps(s[1..]); }
  }

  lemma {:induction false} TrimRightKeeps(s: bytes)
    ensures forall b: byte :: Without(s, b) ==> Without(TrimRight(s), b)
  {
    if s != [] && IsBlank(s[|s| - 1]) { TrimRightKeeps(s[..|s| - 1]); }
  }

  /** Without a minus sign in it, the number is not negative. */
  lemma NoMinusIsNat(s: bytes)
    requires Without(s, MINUS) && PyInt(s).Some?
    ensures PyInt(s).value >= 0
  {
    TrimLeftKeeps(s);
    TrimRightKeeps(TrimLeft(s));
  }

  /** Whatever the header, a part lies within the file. */
  lemma PartsLieInside(header: Option<bytes>, size: nat)
    requires ParseRange(header, size).Part?
    ensures 0 <= ParseRange(header, size).first <= ParseRange(header, size).last < size
  {
    hide PyInt, Trim, Lower;
    var h, eq := header.value, IndexOf(header.value, EQUALS);
    var r := Trim(if eq.Some? then h[eq.value + 1..] else []);
    var i := IndexOf(r, MINUS).value;
    assert Without(r[..i], MINUS);
    if r[..i] != [] { NoMinusIsNat(r[..i]); }
  }

  // -- the ranges that RFC 9110, section 14.1.2, defines ----------------------------------------

  datatype RangeSpec = FromTo(first: nat, last: nat) | From(first: nat) | Suffix(length: nat)

  function SpecText(spec: RangeSpec): bytes {
    match spec
    case FromTo(a, b) => Numeral(a, 10) + [MINUS] + Numeral(b, 10)
    case From(a) => Numeral(a, 10) + [MINUS]
    case Suffix(n) => [MINUS] + Numeral(n, 10)
  }

  /** The bytes of a file of this size that the range names. */
  predicate Selects(spec: RangeSpec, size: nat, i: nat) {
    && i < size
    && match spec
       case FromTo(a, b) => a <= i <= b
       case From(a) => a <= i
       case Suffix(n) => size <= i + n
  }

  predicate ShortNumbers(spec: RangeSpec) {
    match spec
    case FromTo(a, b) => |Numeral(a, 10)| <= MAX_DIGITS && |Numeral(b, 10)| <= MAX_DIGITS
    case From(a) => |Numeral(a, 10)| <= MAX_DIGITS
    case Suffix(n) => |Numeral(n, 10)| <= MAX_DIGITS
  }

  predicate AllDigits(s: bytes) { forall i :: 0 <= i < |s| ==> IsDigit(s[i]) }

  lemma {:induction false} NumeralIsDigits(n: nat)
    ensures AllDigits(Numeral(n, 10))
    decreases n
  {
    if n >= 10 {
      DivMod(n, 10);
      NumeralIsDigits(n / 10);
      assert Numeral(n, 10) == Numeral(n / 10, 10) + [Digit(n % 10)];
    }
  }

  lemma {:induction false} NothingDropped(s: bytes)
    requires AllDigits(s)
    ensures DropUnderscores(s) == s
  {
    if s != [] { NothingDropped(s[1..]); }
  }

  predicate SolidEnds(s: bytes) { s != [] ==> !IsBlank(s[0]) && !IsBlank(s[|s| - 1]) }

  lemma NothingTrimmed(s: bytes)
    requires SolidEnds(s)
    ensures Trim(s) == s
  {
  }

  lemma IntOfNumeral(n: nat)
    requires |Numeral(n, 10)| <= MAX_DIGITS
    ensures PyInt(Numeral(n, 10)) == Some(n)
  {
    var s := Numeral(n, 10);
    NumeralIsDigits(n);
    NothingTrimmed(s);
    NothingDropped(s);
    NumeralRoundTrip(n, 10);
    hide Numeral, NumeralValue, Trim, DropUnderscores;
    assert IsGrouped(s);
  }

  /** The text of a range is read back as its numbers. */
  lemma SpecIsRead(spec: RangeSpec, size: nat)
    requires ShortNumbers(spec)
    ensures AnswerRange(SpecText(spec), size) ==
            match spec
            case FromTo(a, b) =>
              if a >= size || a > b then Unsatisfiable else Part(a, if b < size - 1 then b else size - 1)
            case From(a) => if a >= size then Unsatisfiable else Part(a, size - 1)
            case Suffix(n) =>
              if n == 0 || size == 0 then Unsatisfiable else Part(if size > n then size - n else 0, size - 1)
  {
    hide PyInt, Numeral, IndexOf;
    match spec {
      case FromTo(a, b) =>
        NumeralIsDigits(a);
        MinusIsFound(Numeral(a, 10), Numeral(b, 10));
        IntOfNumeral(a);
        IntOfNumeral(b);
      case From(a) =>
        NumeralIsDigits(a);
        MinusIsFound(Numeral(a, 10), []);
        assert Numeral(a, 10) + [MINUS] + [] == Numeral(a, 10) + [MINUS];
        IntOfNumeral(a);
      case Suffix(n) =>
        MinusIsFound([], Numeral(n, 10));
        assert [] + [MINUS] + Numeral(n, 10) == [MINUS] + Numeral(n, 10);
        IntOfNumeral(n);
    }
  }

  lemma MinusIsFound(front: bytes, back: bytes)
    requires AllDigits(front)
    ensures var r := front + [MINUS] + back;
            IndexOf(r, MINUS) == Some(|front|) && r[..|front|] == front && r[|front| + 1..] == back
  {
    var r := front + [MINUS] + back;
    assert forall i :: 0 <= i < |front| ==> r[i] == front[i];
    IndexOfIs(r, MINUS, |front|);
  }

  predicate DigitsOrMinus(s: bytes) { forall i :: 0 <= i < |s| ==> IsDigit(s[i]) || s[i] == MINUS }

  lemma TextIsDigits(spec: RangeSpec)
    ensures DigitsOrMinus(SpecText(spec))
  {
    hide Numeral;
    match spec {
      case FromTo(a, b) =>
        NumeralIsDigits(a);
        NumeralIsDigits(b);
      case From(a) => NumeralIsDigits(a);
      case Suffix(n) => NumeralIsDigits(n);
    }
  }

  lemma HeaderIsSplit(spec: RangeSpec, size: nat)
    ensures ParseRange(Some(Ascii("bytes=") + SpecText(spec)), size) == AnswerRange(SpecText(spec), size)
  {
    hide AnswerRange, SpecText;
    var r := SpecText(spec);
    TextIsDigits(spec);
    assert SolidEnds(r) && Without(r, COMMA);
    var h := Ascii("bytes=") + r;
    assert Ascii("bytes=") == [98, 121, 116, 101, 115, 61] && Ascii("bytes") == [98, 121, 116, 101, 115];
    IndexOfIs(h, EQUALS, 5);
    assert h[..5] == Ascii("bytes") && h[6..] == r;
    NothingTrimmed(r);
    NothingTrimmed(Ascii("bytes"));
    assert Lower(Ascii("bytes")) == Ascii("bytes");
  }

  /** A range is answered with exactly the bytes it names, and with 416 exactly when it
      names none. */
  lemma RangeIsExact(spec: RangeSpec, size: nat)
    requires ShortNumbers(spec)
    ensures match ParseRange(Some(Ascii("bytes=") + SpecText(spec)), size)
            case Part(first, last) => 0 <= first && forall i: nat :: Selects(spec, size, i) <==> first <= i <= last
            case Unsatisfiable => forall i: nat :: !Selects(spec, size, i)
            case NoRange => false
  {
    HeaderIsSplit(spec, size);
    SpecIsRead(spec, size);
    hide ParseRange, AnswerRange, SpecText;
  }

  // -- the response --------------------------------------------------------------------------------

  predicate IsBodyless(status: int) { status == 204 || status == 304 }

  /** What a read returns: the `k`-th, at a position, of at most so many bytes. The file
      may change between reads. */
  type Reads = (nat, nat, nat) -> bytes

  ghost predicate AtMostAsked(read: Reads) { forall k, at, want :: |read(k, at, want)| <= want }

  function Slice(file: bytes, at: nat, want: nat): bytes {
    if at >= |file| then [] else if at + want >= |file| then file[at..] else file[at..at + want]
  }

  ghost predicate Unchanged(read: Reads, file: bytes) { forall k, at, want :: read(k, at, want) == Slice(file, at, want) }

  function Bodies(messages: seq<SendMessage>): seq<bytes> {
    if messages == [] then []
    else (if messages[0].ResponseBody? then [messages[0].body] else []) + Bodies(messages[1..])
  }

  /** Body messages of which the last, and only the last, is final. */
  predicate EndsOnce(messages: seq<SendMessage>) {
    && messages != [] && (forall i :: 0 <= i < |messages| ==> messages[i].ResponseBody?)
    && forall i :: 0 <= i < |messages| ==> (messages[i].more <==> i < |messages| - 1)
  }

  predicate Unfinished(messages: seq<SendMessage>) {
    forall i :: 0 <= i < |messages| ==> messages[i].ResponseBody? && messages[i].more
  }

  lemma {:induction false} BodiesConcat(a: seq<SendMessage>, b: seq<SendMessage>)
    ensures Bodies(a + b) == Bodies(a) + Bodies(b)
    decreases |a|
  {
    if a == [] {
      assert a + b == b;
    } else {
      assert (a + b)[1..] == a[1..] + b;
      BodiesConcat(a[1..], b);
    }
  }

  lemma OneMore(messages: seq<SendMessage>, body: bytes, more: bool)
    ensures Concat(Bodies(messages + [ResponseBody(body, more)])) == Concat(Bodies(messages)) + body
  {
    var one := [ResponseBody(body, more)];
    BodiesConcat(messages, one);
    assert one[1..] == [];
    assert Bodies(one) == [body] + Bodies([]);
    assert Bodies(one) == [body];
    ConcatAppend(Bodies(messages), [body]);
    assert [body][1..] == [] && Concat([body]) == body + [];
  }

  /** If the file is unchanged and not cut short, this is the part of it. */
  ghost predicate IsPart(read: Reads, start: nat, length: nat, sent: bytes) {
    forall file :: Unchanged(read, file) && start + length <= |file| ==> sent == file[start..start + length]
  }

  lemma NoBodies()
    ensures Concat(Bodies([])) == []
  {
  }

  /** One final message, last; no more than was announced; and all of it, in order, if
      the file is unchanged. */
  ghost predicate Answers(read: Reads, start: nat, length: nat, messages: seq<SendMessage>) {
    && EndsOnce(messages) && |Concat(Bodies(messages))| <= length
    && IsPart(read, start, length, Concat(Bodies(messages)))
  }

  lemma NothingSent(start: nat)
    ensures forall read: Reads :: Answers(read, start, 0, [ResponseBody([], false)])
  {
    OneMore([], [], false);
    assert [] + [ResponseBody([], false)] == [ResponseBody([], false)];
  }

  function PartText(first: nat, last: nat, size: nat): bytes {
    Ascii("bytes ") + Numeral(first, 10) + Ascii("-") + Numeral(last, 10) + Ascii("/") + Numeral(size, 10)
  }

  function NoPartText(size: nat): bytes { Ascii("bytes */") + Numeral(size, 10) }

  class FileResponse {
    var status: int
    var start: nat
    var length: nat
    var contentRange: Option<bytes>
    const size: nat
    const chunkSize: nat

    /** A `chunk_size` of nothing is the default. */
    constructor (status: int, size: nat, chunkSize: nat)
      ensures this.status == status && start == 0 && length == size && contentRange == None
      ensures this.size == size && this.chunkSize == if chunkSize == 0 then 65536 else chunkSize
    {
      this.status, start, length, contentRange := status, 0, size, None;
      this.size := size;
      this.chunkSize := if chunkSize == 0 then 65536 else chunkSize;
    }

    ghost predicate Valid()
      reads this
    {
      start + length <= size && chunkSize > 0
    }

    /** `fresh` and `applies` are what the validators and `If-Range` say. */
    method ApplyConditions(isFresh: bool, header: Option<bytes>, applies: bool)
      requires Valid() && start == 0 && length == size
      modifies this
      ensures Valid()
      ensures var r := ParseRange(header, size);
              if isFresh then status == 304 && length == 0 && start == 0 && contentRange == old(contentRange)
              else if r.Unsatisfiable? then
                status == 416 && length == 0 && start == 0 && contentRange == Some(NoPartText(size))
              else if r.Part? && applies then
                && status == 206 && start == r.first && start + length == r.last + 1
                && length > 0 && contentRange == Some(PartText(start, start + length - 1, size))
              else status == old(status) && start == 0 && length == size && contentRange == old(contentRange)
    {
      hide PartText, NoPartText, ParseRange;
      if isFresh {
        status, length := 304, 0;
        return;
      }
      match ParseRange(header, size)
      case NoRange =>
      case Unsatisfiable =>
        status, length := 416, 0;
        contentRange := Some(NoPartText(size));
      case Part(first, last) =>
        if applies {
          PartsLieInside(header, size);
          status, start, length := 206, first, last - first + 1;
          contentRange := Some(PartText(first, last, size));
        }
    }

    /** The body messages, in the order in which they are sent. */
    method SendBodies(read: Reads) returns (messages: seq<SendMessage>)
      requires Valid() && AtMostAsked(read)
      ensures Answers(read, start, if IsBodyless(status) then 0 else length, messages)
      ensures length == 0 || IsBodyless(status) ==> messages == [ResponseBody([], false)]
    {
      NothingSent(start);
      hide SentSoFar, Answers, IsBodyless;
      if length == 0 || IsBodyless(status) {
        return [ResponseBody([], false)];
      }
      messages := [];
      var remaining, k := length, 0;
      FirstBlock(read, start, length);
      while remaining > 0
        invariant 0 <= remaining <= length
        invariant SentSoFar(read, start, length, messages, remaining)
        decreases remaining
      {
        var want := if chunkSize < remaining then chunkSize else remaining;
        var chunk := read(k, start + length - remaining, want);
        if chunk == [] {
          NoBlock(read, start, length, messages, remaining, k, want);
          return messages + [ResponseBody([], false)];
        }
        NextBlock(read, start, length, messages, remaining, k, want);
        remaining := remaining - |chunk|;
        messages := messages + [ResponseBody(chunk, remaining > 0)];
        k := k + 1;
      }
      LastBlock(read, start, length, messages);
    }
  }

  /** What the loop keeps: the messages so far, and what remains. */
  ghost predicate SentSoFar(read: Reads, start: nat, length: nat, messages: seq<SendMessage>, remaining: nat) {
    && remaining <= length && (if remaining > 0 then Unfinished(messages) else EndsOnce(messages))
    && |Concat(Bodies(messages))| == length - remaining
    && SoFar(read, start, length, Concat(Bodies(messages)))
  }

  lemma FirstBlock(read: Reads, start: nat, length: nat)
    requires length > 0
    ensures SentSoFar(read, start, length, [], length)
  {
    NoBodies();
    SoFarNothing(read, start, length);
  }

  lemma NextBlock(read: Reads, start: nat, length: nat, messages: seq<SendMessage>, remaining: nat, k: nat, want: nat)
    requires SentSoFar(read, start, length, messages, remaining) && remaining > 0 && AtMostAsked(read) && want <= remaining
    ensures var chunk := read(k, start + length - remaining, want);
            && |chunk| <= want
            && SentSoFar(read, start, length, messages + [ResponseBody(chunk, remaining - |chunk| > 0)], remaining - |chunk|)
  {
    hide SoFar, Concat, Bodies;
    ReadIsShort(read, k, start + length - remaining, want);
    hide AtMostAsked;
    var chunk := read(k, start + length - remaining, want);
    var more := remaining - |chunk| > 0;
    OneMore(messages, chunk, more);
    AppendKeepsForm(messages, chunk, more);
    SoFarMore(read, start, length, Concat(Bodies(messages)), k, want);
  }

  lemma NoBlock(read: Reads, start: nat, length: nat, messages: seq<SendMessage>, remaining: nat, k: nat, want: nat)
    requires SentSoFar(read, start, length, messages, remaining) && remaining > 0 && 0 < want <= remaining
    requires read(k, start + length - remaining, want) == []
    ensures Answers(read, start, length, messages + [ResponseBody([], false)])
  {
    hide SoFar, Concat, Bodies, IsPart;
    OneMore(messages, [], false);
    AppendKeepsForm(messages, [], false);
    SoFarAll(read, start, length, Concat(Bodies(messages)), k, want);
    assert Concat(Bodies(messages)) + [] == Concat(Bodies(messages));
  }

  lemma LastBlock(read: Reads, start: nat, length: nat, messages: seq<SendMessage>)
    requires SentSoFar(read, start, length, messages, 0)
    ensures Answers(read, start, length, messages)
  {
    hide SoFar, Concat, Bodies, IsPart;
    SoFarAll(read, start, length, Concat(Bodies(messages)), 0, 0);
  }

  lemma ReadIsShort(read: Reads, k: nat, at: nat, want: nat)
    requires AtMostAsked(read)
    ensures |read(k, at, want)| <= want
  {
  }

  lemma AppendKeepsForm(messages: seq<SendMessage>, body: bytes, more: bool)
    requires Unfinished(messages)
    ensures var all := messages + [ResponseBody(body, more)]; if more then Unfinished(all) else EndsOnce(all)
  {
  }

  /** If the file is unchanged, these are its bytes from `start`. */
  ghost predicate SoFar(read: Reads, start: nat, length: nat, sent: bytes) {
    && |sent| <= length
    && forall file :: Unchanged(read, file) && start + length <= |file| ==> sent == file[start..start + |sent|]
  }

  lemma SoFarNothing(read: Reads, start: nat, length: nat)
    ensures SoFar(read, start, length, [])
  {
  }

  lemma SoFarMore(read: Reads, start: nat, length: nat, sent: bytes, k: nat, want: nat)
    requires AtMostAsked(read) && SoFar(read, start, length, sent) && want <= length - |sent|
    ensures SoFar(read, start, length, sent + read(k, start + |sent|, want))
  {
    ReadIsShort(read, k, start + |sent|, want);
    hide AtMostAsked;
    forall file | Unchanged(read, file) && start + length <= |file|
      ensures sent + read(k, start + |sent|, want) == file[start..start + |sent + read(k, start + |sent|, want)|]
    {
      assert sent == file[start..start + |sent|];
      ReadFollows(read, file, start, sent, k, want);
    }
  }

  lemma ReadFollows(read: Reads, file: bytes, start: nat, sent: bytes, k: nat, want: nat)
    requires Unchanged(read, file) && start + |sent| + want <= |file| && sent == file[start..start + |sent|]
    ensures var chunk := read(k, start + |sent|, want);
            |chunk| == want && sent + chunk == file[start..start + |sent + chunk|]
  {
    var at := start + |sent|;
    assert read(k, at, want) == Slice(file, at, want) == file[at..at + want];
    hide Unchanged;
    assert file[start..at] + file[at..at + want] == file[start..at + want];
  }

  /** An unchanged file is only at its end when everything has been sent. */
  lemma SoFarAll(read: Reads, start: nat, length: nat, sent: bytes, k: nat, want: nat)
    requires SoFar(read, start, length, sent) && want <= length - |sent|
    requires want == 0 <==> |sent| == length
    requires |sent| < length ==> read(k, start + |sent|, want) == []
    ensures IsPart(read, start, length, sent)
  {
    forall file | Unchanged(read, file) && start + length <= |file| ensures sent == file[start..start + length] {
      ReadsWant(read, file, k, start + |sent|, want);
    }
  }

  lemma ReadsWant(read: Reads, file: bytes, k: nat, at: nat, want: nat)
    requires Unchanged(read, file) && at + want <= |file|
    ensures |read(k, at, want)| == want
  {
    assert read(k, at, want) == Slice(file, at, want);
  }

  /** Sent with its length as Content-Length, whatever else the exchange does: the client
      reads back what was sent if and only if no interim response came after the head,
      and no body was due or the file did not shrink on the way; and if the file did not
      change at all, what was sent is exactly the part that was asked for. */
  lemma FileReachesTheClient(head: RequestHead, actions: seq<Action>, x: Exchange, limits: Limits,
                             messages: seq<SendMessage>, read: Reads, start: nat, length: nat, file: bytes)
    requires Reachable(NewExchange(head), actions, x) && x.cycle.responseComplete && x.cycle.status >= 200
    requires ValuesOf(x.cycle.headers, CONTENT_LENGTH) == [Numeral(length, 10)]
    requires x.bodies == Bodies(messages) && IsPart(read, start, length, Concat(Bodies(messages)))
    ensures HeadAt(x.outputs).Some?
    ensures ReadsBack(limits, x) <==> x.late.None? && (x.cycle.omitBody || |Concat(x.bodies)| == length)
    ensures Unchanged(read, file) && start + length <= |file| ==>
              Concat(x.bodies) == file[start..start + length] && (x.late.None? ==> ReadsBack(limits, x))
  {
    hide ValuesOf, Numeral, Concat, Bodies, Reachable, ReadsBack;
    NumeralRoundTrip(length, 10);
    NoFieldNoValues(x.cycle.headers, CONTENT_LENGTH);
    OwnLengthIsFaithfulIff(head, actions, x, limits);
  }
}
