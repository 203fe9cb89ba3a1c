/** Byte strings: searching, slicing, the ASCII helpers of Python's `bytes`, and
    the number formats that the wire protocols use. */
module Bytes {

  datatype Option<+T> = None | Some(value: T)

  type byte = x: int | 0 <= x < 256
  type bytes = seq<byte>

  const TAB: byte := 9
  const LF: byte := 10
  const CR: byte := 13
  const SP: byte := 32
  const CRLF: bytes := [CR, LF]

  /** The Latin-1 encoding of a literal. */
  function Ascii(s: string): (r: bytes)
    ensures |r| == |s|
  {
    seq(|s|, i requires 0 <= i < |s| => (s[i] as int) % 256)
  }

  // -- searching ------------------------------------------------------------

  predicate OccursAt(s: bytes, p: bytes, i: int) {
    0 <= i <= |s| - |p| && s[i..i + |p|] == p
  }

  /** `s.find(p, from)`: the first occurrence at or after `from`. */
  function FindFrom(s: bytes, p: bytes, from: nat): (r: Option<nat>)
    ensures r.Some? ==> from <= r.value && OccursAt(s, p, r.value)
    ensures r.Some? ==> forall i :: from <= i < r.value ==> !OccursAt(s, p, i)
    ensures r.None? ==> forall i :: from <= i ==> !OccursAt(s, p, i)
    decreases |s| - from
  {
    if from > |s| - |p| then None
    else if s[from..from + |p|] == p then Some(from)
    else FindFrom(s, p, from + 1)
  }

  function Find(s: bytes, p: bytes): (r: Option<nat>)
    ensures r.Some? ==> OccursAt(s, p, r.value) && forall i :: 0 <= i < r.value ==> !OccursAt(s, p, i)
    ensures r.None? ==> forall i :: !OccursAt(s, p, i)
  {
    FindFrom(s, p, 0)
  }

  predicate Without(s: bytes, b: byte) { forall i :: 0 <= i < |s| ==> s[i] != b }

  /** The first position of one byte. */
  function IndexOf(s: bytes, b: byte): (r: Option<nat>)
    ensures r.Some? ==> r.value < |s| && s[r.value] == b
    ensures r.Some? ==> forall j :: 0 <= j < r.value ==> s[j] != b
    ensures r.None? ==> Without(s, b)
  {
    if |s| == 0 then None
    else if s[0] == b then Some(0)
    else
      match IndexOf(s[1..], b)
      case None => assert forall j :: 1 <= j < |s| ==> s[j] == s[1..][j - 1]; None
      case Some(i) => assert forall j :: 1 <= j <= i + 1 ==> s[j] == s[1..][j - 1]; Some(i + 1)
  }

  lemma IndexOfIs(s: bytes, b: byte, i: nat)
    requires i < |s| && s[i] == b && forall j :: 0 <= j < i ==> s[j] != b
    ensures IndexOf(s, b) == Some(i)
  {
  }

  /** Text after the first occurrence changes nothing about where it is. */
  lemma IndexOfExtend(s: bytes, x: bytes, b: byte)
    requires IndexOf(s, b).Some?
    ensures IndexOf(s + x, b) == IndexOf(s, b)
  {
    IndexOfIs(s + x, b, IndexOf(s, b).value);
  }

  lemma FindIs(s: bytes, p: bytes, i: nat)
    requires OccursAt(s, p, i)
    requires forall j :: 0 <= j < i ==> !OccursAt(s, p, j)
    ensures Find(s, p) == Some(i)
  {
    var k := Find(s, p).value;
    assert OccursAt(s, p, k);
  }

  lemma FindItself(s: bytes)
    ensures Find(s, s) == Some(0)
  {
    assert s[0..0 + |s|] == s;
    FindIs(s, s, 0);
  }

  lemma OccursExtend(s: bytes, x: bytes, p: bytes, i: nat)
    requires i + |p| <= |s|
    ensures OccursAt(s + x, p, i) <==> OccursAt(s, p, i)
  {
    assert (s + x)[i..i + |p|] == s[i..i + |p|];
  }

  lemma FindExtend(s: bytes, x: bytes, p: bytes)
    requires Find(s, p).Some?
    ensures Find(s + x, p) == Find(s, p)
  {
    var k := Find(s, p).value;
    forall j | 0 <= j <= k ensures OccursAt(s + x, p, j) <==> OccursAt(s, p, j) {
      OccursExtend(s, x, p, j);
    }
    FindIs(s + x, p, k);
  }

  /** Dropping what can no longer start a match keeps every later match in place:
      nothing that is held back hides or swallows a pattern. */
  lemma FindAfterDrop(s: bytes, x: bytes, p: bytes, n: nat)
    requires Find(s, p).None? && n <= |s|
    requires n == 0 || n + |p| <= |s| + 1
    ensures var whole, rest := Find(s + x, p), Find(s[n..] + x, p);
            (whole.None? <==> rest.None?) && (whole.Some? ==> whole.value == n + rest.value)
  {
    var t := s[n..] + x;
    assert s + x == s[..n] + t;
    forall j | 0 <= j ensures OccursAt(s + x, p, n + j) <==> OccursAt(t, p, j) {
      if j + |p| <= |t| {
        assert (s + x)[n + j..n + j + |p|] == t[j..j + |p|];
      }
    }
    forall j | 0 <= j < n ensures !OccursAt(s + x, p, j) {
      OccursExtend(s, x, p, j);
    }
    match Find(t, p)
    case None =>
      forall w | 0 <= w ensures !OccursAt(s + x, p, w) {
        assert n <= w ==> !OccursAt(t, p, w - n);
      }
    case Some(k) =>
      forall j | 0 <= j < n + k ensures !OccursAt(s + x, p, j) {
        if n <= j {
          assert !OccursAt(t, p, j - n);
        }
      }
      FindIs(s + x, p, n + k);
  }

  // -- the `bytes` methods the headers need ------------------------------------

  predicate IsSpace(b: byte) { b == SP || 9 <= b <= 13 }

  function StripLeft(s: bytes): bytes {
    if s != [] && IsSpace(s[0]) then StripLeft(s[1..]) else s
  }

  function StripRight(s: bytes): bytes {
    if s != [] && IsSpace(s[|s| - 1]) then StripRight(s[..|s| - 1]) else s
  }

  function Strip(s: bytes): bytes { StripRight(StripLeft(s)) }

  function LowerByte(b: byte): byte { if 65 <= b <= 90 then b + 32 else b }

  function Lower(s: bytes): (r: bytes)
    ensures |r| == |s|
  {
    seq(|s|, i requires 0 <= i < |s| => LowerByte(s[i]))
  }

  function Split(s: bytes, separator: byte): (r: seq<bytes>)
    ensures |r| >= 1
    decreases |s|
  {
    match IndexOf(s, separator)
    case None => [s]
    case Some(i) => [s[..i]] + Split(s[i + 1..], separator)
  }

  function Concat(pieces: seq<bytes>): bytes {
    if pieces == [] then [] else pieces[0] + Concat(pieces[1..])
  }

  lemma ConcatAppend(pieces: seq<bytes>, more: seq<bytes>)
    ensures Concat(pieces + more) == Concat(pieces) + Concat(more)
  {
    if pieces == [] {
      assert pieces + more == more;
    } else {
      assert (pieces + more)[1..] == pieces[1..] + more;
      ConcatAppend(pieces[1..], more);
    }
  }

  lemma ConcatOfTwo(a: bytes, b: bytes)
    ensures Concat([a, b]) == a + b
  {
    assert [a, b][1..] == [b];
    assert Concat([b]) == b;
  }

  lemma SliceBehind(b: bytes, n: nat, at: nat, y: bytes)
    requires n + at <= |b|
    ensures b[..n] + (b[n..][..at] + y) == b[..n + at] + y
  {
    assert b[..n] + b[n..][..at] == b[..n + at];
    assert b[..n] + (b[n..][..at] + y) == b[..n] + b[n..][..at] + y;
  }

  // -- numbers as digits ---------------------------------------------------

  /** The digit of value `d`, lower case as the `x` format writes it. */
  function Digit(d: nat): byte
    requires d < 16
  {
    if d < 10 then 48 + d else 87 + d
  }

  function DigitValue(b: byte): (r: Option<nat>)
    ensures r.Some? ==> r.value < 16
  {
    if 48 <= b <= 57 then Some(b - 48)
    else if 65 <= b <= 70 then Some(b - 55)
    else if 97 <= b <= 102 then Some(b - 87)
    else None
  }

  predicate IsNumeral(s: bytes, base: nat) {
    s != [] && forall i :: 0 <= i < |s| ==> DigitValue(s[i]).Some? && DigitValue(s[i]).value < base
  }

  /** `int(s, base)` of a plain numeral. */
  function NumeralValue(s: bytes, base: nat): nat
    requires IsNumeral(s, base)
  {
    var last := DigitValue(s[|s| - 1]).value;
    if |s| == 1 then last else NumeralValue(s[..|s| - 1], base) * base + last
  }

  lemma DivMod(n: nat, base: nat)
    requires base >= 2
    ensures n == (n / base) * base + n % base && n % base < base
    ensures n >= base ==> 0 < n / base < n
  {
    var q := n / base;
    assert q * base >= q * 2 by { MulGrows(q, 2, base); }
  }

  lemma MulGrows(q: nat, a: nat, b: nat)
    requires a <= b
    ensures q * a <= q * b
  {
  }

  /** The numeral of `n`, without leading zeros: `str(n)` and `f"{n:x}"`. */
  function Numeral(n: nat, base: nat): (r: bytes)
    requires 2 <= base <= 16
    ensures r != []
    decreases n
  {
    if n < base then [Digit(n)]
    else DivMod(n, base); Numeral(n / base, base) + [Digit(n % base)]
  }

  lemma AppendDigit(front: bytes, d: nat, base: nat)
    requires IsNumeral(front, base) && d < base <= 16
    ensures IsNumeral(front + [Digit(d)], base)
    ensures NumeralValue(front + [Digit(d)], base) == NumeralValue(front, base) * base + d
  {
    var s := front + [Digit(d)];
    assert s[..|s| - 1] == front;
    assert forall i :: 0 <= i < |front| ==> s[i] == front[i];
  }

  lemma {:induction false} NumeralRoundTrip(n: nat, base: nat)
    requires 2 <= base <= 16
    ensures IsNumeral(Numeral(n, base), base)
    ensures NumeralValue(Numeral(n, base), base) == n
    decreases n
  {
    if n >= base {
      DivMod(n, base);
      var q, d := n / base, n % base;
      NumeralRoundTrip(q, base);
      AppendDigit(Numeral(q, base), d, base);
    }
  }

  function Power(base: nat, k: nat): nat {
    if k == 0 then 1 else base * Power(base, k - 1)
  }

  lemma {:induction false} NumeralLength(n: nat, base: nat, k: nat)
    requires 2 <= base <= 16 && 1 <= k && n < Power(base, k)
    ensures |Numeral(n, base)| <= k
  {
    if n >= base {
      DivMod(n, base);
      var q, top := n / base, Power(base, k - 1);
      assert n < base * top;
      assert q < top by {
        if q >= top {
          MulGrows(base, top, q);
          assert false;
        }
      }
      assert k >= 2;
      NumeralLength(q, base, k - 1);
    }
  }
}
