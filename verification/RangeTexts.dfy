/** The texts of ranges: what a client makes of `content-range`, and which headers ask for
    a range at all. */
module RangeTexts {
  import opened Bytes
  import opened ParserSpec
  import opened ParserFields
  import opened Ranges

  // -- content-range (section 14.4 of RFC 9110) ---------------------------------------------

  datatype ContentRange = Of(first: nat, last: nat, size: nat) | OutOf(size: nat)

  function ReadNumber(s: bytes): Option<nat> {
    if s != [] && forall i :: 0 <= i < |s| ==> 48 <= s[i] <= 57 then Some(Decimal(s)) else None
  }

  // `bytes first-last/size`, or `bytes */size` where there is no such part.
  function ReadContentRange(s: bytes): Option<ContentRange> {
    if !(Ascii("bytes ") <= s) then None
    else
      var rest := s[6..];
      match IndexOf(rest, 47)
      case None => None
      case Some(k) =>
        var range, size := rest[..k], ReadNumber(rest[k + 1..]);
        if size.None? then None
        else if range == [42] then Some(OutOf(size.value))
        else
          match IndexOf(range, MINUS)
          case None => None
          case Some(j) =>
            var first, last := ReadNumber(range[..j]), ReadNumber(range[j + 1..]);
            if first.None? || last.None? then None else Some(Of(first.value, last.value, size.value))
  }

  lemma NumberIsRead(n: nat)
    ensures ReadNumber(Numeral(n, 10)) == Some(n)
  {
    NumeralIsDigits(n);
    NumeralRoundTrip(n, 10);
    DecimalIs(Numeral(n, 10));
  }

  lemma DigitsAreAlone(n: nat)
    ensures Without(Numeral(n, 10), MINUS) && Without(Numeral(n, 10), 47)
  {
    NumeralIsDigits(n);
  }

  /** The client reads the part and the size that the server had in mind. */
  lemma PartTextIsRead(first: nat, last: nat, size: nat)
    ensures ReadContentRange(PartText(first, last, size)) == Some(Of(first, last, size))
  {
    hide PartText, Numeral, ReadNumber, Ascii, IndexOf;
    var a, b, n := Numeral(first, 10), Numeral(last, 10), Numeral(size, 10);
    NumberIsRead(first);
    NumberIsRead(last);
    NumberIsRead(size);
    DigitsAreAlone(first);
    DigitsAreAlone(last);
    PartTextStands(first, last, size);
    var range := a + [MINUS] + b;
    assert |range| >= 3;
    CutAt(range, 47, n);
    CutAt(a, MINUS, b);
  }

  lemma PartTextStands(first: nat, last: nat, size: nat)
    ensures var s := PartText(first, last, size);
            && Ascii("bytes ") <= s && |s| >= 6
            && s[6..] == Numeral(first, 10) + [MINUS] + Numeral(last, 10) + [47] + Numeral(size, 10)
  {
    assert Ascii("-") == [MINUS] && Ascii("/") == [47];
    var front := Ascii("bytes ");
    assert |front| == 6;
    hide Numeral, Ascii;
    TextIs(front, Numeral(first, 10), Numeral(last, 10), Numeral(size, 10));
  }

  lemma TextIs(front: bytes, a: bytes, b: bytes, n: bytes)
    ensures var s := front + a + [MINUS] + b + [47] + n;
            front <= s && s[|front|..] == a + [MINUS] + b + [47] + n
  {
  }

  lemma CutAt(front: bytes, mark: byte, back: bytes)
    requires Without(front, mark)
    ensures var s := front + [mark] + back;
            IndexOf(s, mark) == Some(|front|) && s[..|front|] == front && s[|front| + 1..] == back
  {
    var s := front + [mark] + back;
    assert forall i :: 0 <= i < |front| ==> s[i] == front[i];
    IndexOfIs(s, mark, |front|);
  }

  lemma NoPartTextIsRead(size: nat)
    ensures ReadContentRange(NoPartText(size)) == Some(OutOf(size))
  {
    NumberIsRead(size);
    var s, n := NoPartText(size), Numeral(size, 10);
    assert Ascii("bytes */") == Ascii("bytes ") + [42, 47];
    hide Numeral, ReadNumber, Ascii;
    assert |Ascii("bytes ")| == 6;
    assert s == Ascii("bytes ") + ([42] + [47] + n);
    assert s[6..] == [42] + [47] + n;
    CutAt([42], 47, n);
  }

  // -- what asks for a range ---------------------------------------------------------------------

  /** The unit of the header is bytes, and one range follows it. */
  predicate AsksForBytes(h: bytes, k: int) {
    && 0 <= k < |h| && h[k] == 61 && Without(h[..k], 61)
    && Lower(Trim(h[..k])) == Ascii("bytes") && Without(h[k + 1..], 44) && !Without(h[k + 1..], 45)
  }

  /** A header is answered with a part, or with 416, only where its unit is bytes and it
      names one range. */
  lemma OnlyByteRangesCount(h: bytes, size: nat)
    requires !ParseRange(Some(h), size).NoRange?
    ensures exists k :: AsksForBytes(h, k)
  {
    var eq := IndexOf(h, EQUALS);
    hide PyInt, Lower;
    var rest := if eq.Some? then h[eq.value + 1..] else [];
    var r := Trim(rest);
    assert IndexOf(r, MINUS).Some?;
    if Without(rest, MINUS) {
      TrimLeftKeeps(rest);
      TrimRightKeeps(TrimLeft(rest));
    }
    hide Trim;
    if eq.Some? { assert AsksForBytes(h, eq.value); }
  }

  // -- numbers in headers ----------------------------------------------------------------------------

  predicate AllBlanks(s: bytes) { forall i :: 0 <= i < |s| ==> IsBlank(s[i]) }

  /** The white space of a text of Latin-1. */
  lemma BlanksAre(b: byte)
    ensures IsBlank(b) <==> b in [9, 10, 11, 12, 13, 28, 29, 30, 31, 32, 133, 160]
  {
  }

  /** The sign of a number, where one is written. */
  datatype Sign = NoSign | Plus | Minus

  function SignText(sign: Sign): bytes {
    match sign
    case NoSign => []
    case Plus => [43]
    case Minus => [45]
  }

  /** Digits with single underscores between them. */
  predicate IsDigits(d: bytes) {
    && d != [] && d[0] != 95 && d[|d| - 1] != 95
    && (forall i :: 0 <= i < |d| ==> 48 <= d[i] <= 57 || d[i] == 95)
    && forall i :: 0 <= i < |d| - 1 ==> d[i] != 95 || d[i + 1] != 95
  }

  /** The number they stand for, and how many digits there are. */
  function ValueOf(d: bytes): nat
    requires forall i :: 0 <= i < |d| ==> 48 <= d[i] <= 57 || d[i] == 95
  {
    if d == [] then 0
    else if d[|d| - 1] == 95 then ValueOf(d[..|d| - 1])
    else 10 * ValueOf(d[..|d| - 1]) + (d[|d| - 1] - 48)
  }

  function DigitsIn(d: bytes): nat {
    if d == [] then 0 else DigitsIn(d[..|d| - 1]) + if d[|d| - 1] == 95 then 0 else 1
  }

  predicate IsNumberText(t: bytes, sign: Sign, d: bytes, v: int) {
    && t == SignText(sign) + d && IsDigits(d) && DigitsIn(d) <= 4300
    && v == if sign == Minus then -(ValueOf(d) as int) else ValueOf(d) as int
  }

  lemma {:induction false} DropSnoc(s: bytes, b: byte)
    ensures DropUnderscores(s + [b]) == DropUnderscores(s) + if b == UNDERSCORE then [] else [b]
    decreases |s|
  {
    if s == [] {
      assert s + [b] == [b] && [b][1..] == [];
    } else {
      assert (s + [b])[1..] == s[1..] + [b];
      DropSnoc(s[1..], b);
    }
  }

  lemma {:induction false} ValueIs(d: bytes)
    requires forall i :: 0 <= i < |d| ==> 48 <= d[i] <= 57 || d[i] == 95
    ensures var plain := DropUnderscores(d);
            && DigitsIn(d) == |plain| && (forall i :: 0 <= i < |plain| ==> 48 <= plain[i] <= 57) && ValueOf(d) == Decimal(plain)
    decreases |d|
  {
    if d != [] {
      var n := |d| - 1;
      assert d == d[..n] + [d[n]];
      ValueIs(d[..n]);
      DropSnoc(d[..n], d[n]);
      var front := DropUnderscores(d[..n]);
      hide DropUnderscores;
      if d[n] == UNDERSCORE {
        assert front + [] == front;
      } else {
        assert (front + [d[n]])[..|front|] == front;
        assert Decimal(front + [d[n]]) == 10 * Decimal(front) + (d[n] - 48);
      }
    }
  }

  lemma DigitsIff(d: bytes)
    ensures IsDigits(d) <==> IsGrouped(d)
  {
  }

  /** What is left of a text without the blanks around it. */
  lemma TrimIs(s: bytes) returns (a: bytes, b: bytes)
    ensures var t := Trim(s);
            && AllBlanks(a) && AllBlanks(b) && s == a + t + b && (t != [] ==> !IsBlank(t[0]) && !IsBlank(t[|t| - 1]))
  {
    a := LeftGoes(s);
    b := RightGoes(TrimLeft(s));
    hide TrimLeft, TrimRight, IsBlank;
    var t := Trim(s);
    assert s == a + (t + b) == a + t + b;
    if t != [] { assert TrimLeft(s)[0] == t[0]; }
  }

  lemma {:induction false} LeftGoes(s: bytes) returns (a: bytes)
    ensures AllBlanks(a) && s == a + TrimLeft(s) && (TrimLeft(s) != [] ==> !IsBlank(TrimLeft(s)[0]))
    decreases |s|
  {
    if s != [] && IsBlank(s[0]) {
      var b := LeftGoes(s[1..]);
      a := [s[0]] + b;
      assert s == a + TrimLeft(s);
    } else {
      a := [];
    }
  }

  lemma {:induction false} RightGoes(s: bytes) returns (b: bytes)
    ensures var t := TrimRight(s); AllBlanks(b) && s == t + b && (t != [] ==> !IsBlank(t[|t| - 1]))
    decreases |s|
  {
    if s != [] && IsBlank(s[|s| - 1]) {
      var a := RightGoes(s[..|s| - 1]);
      b := a + [s[|s| - 1]];
      assert s == TrimRight(s) + b;
    } else {
      b := [];
    }
  }

  /** A text is read as a number exactly if, without the blanks around it, it is an optional
      sign and at most 4300 digits with single underscores between them. */
  lemma NumberIff(s: bytes, v: int)
    ensures PyInt(s) == Some(v) <==> exists sign, d :: IsNumberText(Trim(s), sign, d, v)
  {
    forall sign, d | IsNumberText(Trim(s), sign, d, v) ensures PyInt(s) == Some(v) { NumberTextIsRead(s, sign, d, v); }
    if PyInt(s) == Some(v) { ReadIsNumberText(s, v); }
  }

  lemma NumberTextIsRead(s: bytes, sign: Sign, d: bytes, v: int)
    requires IsNumberText(Trim(s), sign, d, v)
    ensures PyInt(s) == Some(v)
  {
    var t, plain := Trim(s), DropUnderscores(d);
    ValueIs(d);
    DigitsIff(d);
    GroupedIsNumeral(d);
    DecimalIs(plain);
    SignStands(sign, d);
    hide Trim, DropUnderscores, NumeralValue, Decimal, ValueOf, DigitsIn, IsGrouped, IsDigits;
  }

  lemma SignStands(sign: Sign, d: bytes)
    requires IsDigits(d)
    ensures var t := SignText(sign) + d;
            && t != [] && d[0] != PLUS && d[0] != MINUS && IsDigit(d[0])
            && (sign == NoSign ==> t == d) && (sign != NoSign ==> t[1..] == d && t[0] == if sign == Plus then PLUS else MINUS)
  {
  }

  function SignOf(t: bytes): Sign { if t != [] && t[0] == MINUS then Minus else if t != [] && t[0] == PLUS then Plus else NoSign }

  function BehindSign(t: bytes): bytes { if SignOf(t) == NoSign then t else t[1..] }

  lemma SignIsText(t: bytes)
    ensures t == SignText(SignOf(t)) + BehindSign(t)
  {
  }

  lemma ReadIsGrouped(s: bytes, v: int)
    requires PyInt(s) == Some(v)
    ensures var d := BehindSign(Trim(s));
            var plain := DropUnderscores(d);
            && IsGrouped(d) && |plain| <= MAX_DIGITS && IsNumeral(plain, 10)
            && v == if SignOf(Trim(s)) == Minus then -(NumeralValue(plain, 10) as int) else NumeralValue(plain, 10) as int
  {
    GroupedIsNumeral(BehindSign(Trim(s)));
    hide Trim, DropUnderscores, NumeralValue, IsGrouped;
  }

  lemma ReadIsNumberText(s: bytes, v: int)
    requires PyInt(s) == Some(v)
    ensures exists sign, d :: IsNumberText(Trim(s), sign, d, v)
  {
    hide Trim, DropUnderscores, NumeralValue, IsGrouped, BehindSign, SignOf, SignText, PyInt, IsNumeral;
    var t := Trim(s);
    SignIsText(t);
    ReadIsGrouped(s, v);
    GroupedCounts(BehindSign(t));
    assert IsNumberText(t, SignOf(t), BehindSign(t), v);
    hide IsNumberText;
  }

  lemma GroupedCounts(d: bytes)
    requires IsGrouped(d) && IsNumeral(DropUnderscores(d), 10)
    ensures IsDigits(d) && DigitsIn(d) == |DropUnderscores(d)| && ValueOf(d) == NumeralValue(DropUnderscores(d), 10)
  {
    DigitsIff(d);
    DigitsOnly(d);
    ValueIs(d);
    hide DropUnderscores, NumeralValue, IsGrouped, IsDigits, ValueOf, DigitsIn, Decimal;
    DecimalIs(DropUnderscores(d));
  }

  lemma DigitsOnly(d: bytes)
    requires IsDigits(d)
    ensures forall i :: 0 <= i < |d| ==> 48 <= d[i] <= 57 || d[i] == 95
  {
  }
}
