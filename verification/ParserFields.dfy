/** What a request head says, told from the fields as they were written: which of them
    there are, the length, the tokens and the target; and the parser that reads just that. */
module ParserFields {
  import opened Bytes
  import opened ParserSpec
  import opened ParserHeads

  // -- which fields there are ----------------------------------------------------------

  /** Names are compared without their case; `name` is in lower case. */
  predicate Named(h: Header, name: bytes) { Lower(h.name) == name }

  /** The same letter, or the same byte. */
  predicate SameLetter(a: byte, b: byte) { a == b || (65 <= a <= 90 && b == a + 32) || (65 <= b <= 90 && a == b + 32) }

  /** Lower case tells texts apart exactly by more than the case of their letters. */
  lemma LowerIff(s: bytes, t: bytes)
    ensures Lower(s) == Lower(t) <==> |s| == |t| && forall i :: 0 <= i < |s| ==> SameLetter(s[i], t[i])
    ensures forall i :: 0 <= i < |s| ==> !(65 <= Lower(s)[i] <= 90)
  {
    forall i | 0 <= i < |s| && i < |t| ensures Lower(s)[i] == Lower(t)[i] <==> SameLetter(s[i], t[i]) { }
  }

  predicate Absent(headers: seq<Header>, name: bytes) { forall i :: 0 <= i < |headers| ==> !Named(headers[i], name) }

  predicate Repeats(headers: seq<Header>, name: bytes) {
    exists i, j :: 0 <= i < j < |headers| && Named(headers[i], name) && Named(headers[j], name)
  }

  predicate Has(headers: seq<Header>, name: bytes, value: bytes) {
    exists i :: 0 <= i < |headers| && Named(headers[i], name) && headers[i].value == value
  }

  lemma LowerAllSnoc(headers: seq<Header>)
    requires headers != []
    ensures var n := |headers| - 1;
            LowerAll(headers)[..n] == LowerAll(headers[..n]) && LowerAll(headers)[n] == Header(Lower(headers[n].name), headers[n].value)
  {
  }

  lemma {:induction false} ValueIff(headers: seq<Header>, name: bytes, value: bytes)
    ensures value in ValuesOf(LowerAll(headers), name) <==> Has(headers, name, value)
    decreases |headers|
  {
    hide Lower, LowerAll;
    if headers != [] {
      var n := |headers| - 1;
      LowerAllSnoc(headers);
      ValueIff(headers[..n], name, value);
      if Has(headers[..n], name, value) {
        var i :| 0 <= i < n && Named(headers[..n][i], name) && headers[..n][i].value == value;
        assert Named(headers[i], name) && headers[i].value == value;
      }
      if Has(headers, name, value) {
        var i :| 0 <= i < |headers| && Named(headers[i], name) && headers[i].value == value;
        if i < n { assert Named(headers[..n][i], name); }
      }
    } else {
      assert LowerAll(headers) == [];
    }
  }

  lemma {:induction false} CountIff(headers: seq<Header>, name: bytes)
    ensures var n := |ValuesOf(LowerAll(headers), name)|;
            (n == 0 <==> Absent(headers, name)) && (n >= 2 <==> Repeats(headers, name))
    decreases |headers|
  {
    hide Lower, LowerAll;
    if headers == [] {
      assert LowerAll(headers) == [];
    } else {
      var n := |headers| - 1;
      LowerAllSnoc(headers);
      CountIff(headers[..n], name);
      SnocCount(headers, name);
    }
  }

  /** One more field. */
  lemma SnocCount(headers: seq<Header>, name: bytes)
    requires headers != []
    ensures var front, last := headers[..|headers| - 1], Named(headers[|headers| - 1], name);
            && (Absent(headers, name) <==> Absent(front, name) && !last)
            && (Repeats(headers, name) <==> Repeats(front, name) || (last && !Absent(front, name)))
  {
    hide Named;
    var n := |headers| - 1;
    var front := headers[..n];
    if Repeats(front, name) {
      var i, j :| 0 <= i < j < n && Named(front[i], name) && Named(front[j], name);
      assert Named(headers[i], name) && Named(headers[j], name);
    }
    if !Absent(front, name) {
      var i :| 0 <= i < n && Named(front[i], name);
      assert Named(headers[i], name);
    }
    if Repeats(headers, name) {
      var i, j :| 0 <= i < j < |headers| && Named(headers[i], name) && Named(headers[j], name);
      assert Named(front[i], name);
      if j < n { assert Named(front[j], name); }
    }
    if !Absent(headers, name) {
      var i :| 0 <= i < |headers| && Named(headers[i], name);
      if i < n { assert Named(front[i], name); }
    }
  }

  /** A field that occurs, and not twice. */
  lemma TheOne(headers: seq<Header>, name: bytes) returns (value: bytes)
    requires !Absent(headers, name) && !Repeats(headers, name)
    ensures ValuesOf(LowerAll(headers), name) == [value]
    ensures forall v :: Has(headers, name, v) <==> v == value
  {
    CountIff(headers, name);
    var values := ValuesOf(LowerAll(headers), name);
    value := values[0];
    forall v ensures Has(headers, name, v) <==> v == value {
      ValueIff(headers, name, v);
    }
  }

  // -- a length ----------------------------------------------------------------------------

  /** One to nineteen decimal digits. */
  predicate IsDecimal(s: bytes) { 1 <= |s| <= 19 && forall i :: 0 <= i < |s| ==> 48 <= s[i] <= 57 }

  /** The number that decimal digits stand for. */
  function Decimal(s: bytes): nat
    requires forall i :: 0 <= i < |s| ==> 48 <= s[i] <= 57
  {
    if s == [] then 0 else 10 * Decimal(s[..|s| - 1]) + (s[|s| - 1] - 48)
  }

  lemma LengthIff(s: bytes)
    ensures IsContentLength(s) <==> IsDecimal(s)
  {
    forall i | 0 <= i < |s| ensures DigitValue(s[i]).Some? && DigitValue(s[i]).value < 10 <==> 48 <= s[i] <= 57 {
    }
  }

  lemma {:induction false} DecimalIs(s: bytes)
    requires s != [] && forall i :: 0 <= i < |s| ==> 48 <= s[i] <= 57
    ensures IsNumeral(s, 10) && NumeralValue(s, 10) == Decimal(s)
    decreases |s|
  {
    if |s| > 1 {
      DecimalIs(s[..|s| - 1]);
    } else {
      assert Decimal(s[..0]) == 0;
    }
  }

  /** The number as its digits are written, most significant first. */
  lemma PrintedIsDecimal(n: nat)
    requires |Numeral(n, 10)| <= 19
    ensures IsDecimal(Numeral(n, 10)) && Decimal(Numeral(n, 10)) == n
  {
    NumeralRoundTrip(n, 10);
    LengthIff(Numeral(n, 10));
    DecimalIs(Numeral(n, 10));
  }

  /** The head announces a body of `n` bytes. */
  predicate Announces(headers: seq<Header>, n: nat) {
    exists i :: 0 <= i < |headers| && Named(headers[i], Ascii("content-length")) && IsDecimal(headers[i].value) && Decimal(headers[i].value) == n
  }

  // -- lists of tokens ---------------------------------------------------------------------

  /** One item of a comma-separated list. */
  predicate IsItem(value: bytes, a: int, b: int) {
    && 0 <= a <= b <= |value| && Without(value[a..b], 44)
    && (a == 0 || value[a - 1] == 44) && (b == |value| || value[b] == 44)
  }

  ghost predicate Lists(value: bytes, token: bytes) {
    exists a, b :: IsItem(value, a, b) && Lower(Strip(value[a..b])) == token
  }

  ghost predicate Says(headers: seq<Header>, name: bytes, token: bytes) {
    exists i :: 0 <= i < |headers| && Named(headers[i], name) && Lists(headers[i].value, token)
  }

  ghost predicate HasItem(value: bytes, item: bytes) { exists a, b :: IsItem(value, a, b) && value[a..b] == item }

  lemma {:induction false} ItemsAreSplit(value: bytes, item: bytes)
    ensures item in Split(value, 44) <==> HasItem(value, item)
    decreases |value|
  {
    match IndexOf(value, 44)
    case None => OnlyItem(value, item);
    case Some(k) =>
      SplitCons(value, k);
      ItemsAreSplit(value[k + 1..], item);
      ItemsCons(value, k, item);
      hide Split, HasItem;
  }

  lemma OnlyItem(value: bytes, item: bytes)
    requires Without(value, 44)
    ensures HasItem(value, item) <==> item == value
  {
    assert IsItem(value, 0, |value|) && value[0..|value|] == value;
    forall a, b | IsItem(value, a, b) ensures value[a..b] == value { }
  }

  lemma SplitCons(value: bytes, k: nat)
    requires IndexOf(value, 44) == Some(k)
    ensures Split(value, 44) == [value[..k]] + Split(value[k + 1..], 44)
  {
  }

  /** Behind the first comma the items are those of the rest. */
  lemma ItemsCons(value: bytes, k: nat, item: bytes)
    requires IndexOf(value, 44) == Some(k)
    ensures HasItem(value, item) <==> item == value[..k] || HasItem(value[k + 1..], item)
  {
    var rest := value[k + 1..];
    assert IsItem(value, 0, k) && value[0..k] == value[..k];
    forall a, b | IsItem(value, a, b) ensures value[a..b] == value[..k] || HasItem(rest, value[a..b]) {
      assert forall i :: a <= i < b ==> value[a..b][i - a] == value[i];
      if a > k {
        assert value[a..b] == rest[a - k - 1..b - k - 1];
        assert IsItem(rest, a - k - 1, b - k - 1);
      }
    }
    forall a, b | IsItem(rest, a, b) ensures HasItem(value, rest[a..b]) {
      assert value[k + 1 + a..k + 1 + b] == rest[a..b];
      assert IsItem(value, k + 1 + a, k + 1 + b);
    }
  }

  lemma ListIff(value: bytes, token: bytes)
    ensures ListHasToken(value, token) <==> Lists(value, token)
  {
    hide Lower, Strip, Split;
    forall item ensures item in Split(value, 44) <==> HasItem(value, item) { ItemsAreSplit(value, item); }
    if ListHasToken(value, token) {
      var i :| 0 <= i < |Split(value, 44)| && Lower(Strip(Split(value, 44)[i])) == token;
      assert HasItem(value, Split(value, 44)[i]);
    }
    if Lists(value, token) {
      var a, b :| IsItem(value, a, b) && Lower(Strip(value[a..b])) == token;
      assert HasItem(value, value[a..b]);
    }
  }

  lemma SaysIff(headers: seq<Header>, token: bytes)
    ensures HasConnectionToken(LowerAll(headers), token) <==> Says(headers, Ascii("connection"), token)
  {
    var name := Ascii("connection");
    var values := ValuesOf(LowerAll(headers), name);
    hide Lists, ListHasToken, Lower, Ascii, LowerAll, ValuesOf;
    if i :| 0 <= i < |values| && ListHasToken(values[i], token) {
      ValueIff(headers, name, values[i]);
      ListIff(values[i], token);
    }
    if i :| 0 <= i < |headers| && Named(headers[i], name) && Lists(headers[i].value, token) {
      ValueIff(headers, name, headers[i].value);
      ListIff(headers[i].value, token);
      assert headers[i].value in values;
    }
  }

  // -- the target -----------------------------------------------------------------------------

  /** Everything before the first question mark, and everything behind it. */
  predicate QuerySplits(s: bytes, path: bytes, query: bytes) {
    Without(path, 63) && (if Without(s, 63) then path == s && query == [] else s == path + [63] + query)
  }

  predicate IsHttp(scheme: bytes) { Lower(scheme) == Ascii("http") || Lower(scheme) == Ascii("https") }

  /** `scheme://authority` and what stands behind. */
  ghost predicate AbsoluteReads(target: bytes, k: int, path: bytes, query: bytes) {
    && 0 <= k <= |target| - 3 && IsHttp(target[..k]) && target[k..k + 3] == Ascii("://")
    && var rest := target[k + 3..];
       if Without(rest, 47) then path == Ascii("/") && query == []
       else exists j :: SlashAt(rest, j) && QuerySplits(rest[j..], path, query)
  }

  predicate SlashAt(s: bytes, j: int) { 0 <= j < |s| && s[j] == 47 && Without(s[..j], 47) }

  /** The path and the query of a request target: in origin form, as an asterisk, or in
      absolute form. */
  ghost predicate TargetReads(target: bytes, path: bytes, query: bytes) {
    if target != [] && target[0] == 47 then QuerySplits(target, path, query)
    else (target == [42] && path == [42] && query == []) || exists k :: AbsoluteReads(target, k, path, query)
  }

  lemma QueryIff(s: bytes, path: bytes, query: bytes)
    ensures PartitionQuery(s) == Target(path, query) <==> QuerySplits(s, path, query)
  {
    match IndexOf(s, 63)
    case None =>
    case Some(i) =>
      assert s == s[..i] + [63] + s[i + 1..];
      assert s[i] == 63;
      if QuerySplits(s, path, query) {
        IndexOfIs(s, 63, |path|);
        assert s[..i] == path && s[i + 1..] == query;
      }
  }

  lemma HttpHasNoColon(scheme: bytes)
    requires IsHttp(scheme)
    ensures Without(scheme, 58) && (scheme != [] ==> scheme[0] != 47) && scheme != []
  {
    assert Ascii("http") == [104, 116, 116, 112] && Ascii("https") == [104, 116, 116, 112, 115];
    forall i | 0 <= i < |scheme| ensures scheme[i] != 58 && scheme[i] != 47 {
      assert Lower(scheme)[i] == LowerByte(scheme[i]) >= 97;
    }
  }

  lemma SchemeEndsFirst(target: bytes, k: nat)
    requires k <= |target| - 3 && IsHttp(target[..k]) && target[k..k + 3] == Ascii("://")
    ensures Find(target, Ascii("://")) == Some(k)
  {
    HttpHasNoColon(target[..k]);
    var mark := Ascii("://");
    assert mark[0] == 58 && |mark| == 3;
    assert forall j :: 0 <= j < k ==> target[j..j + 3][0] == target[j] == target[..k][j] != 58;
    FindIs(target, mark, k);
  }

  lemma AbsoluteIff(target: bytes, k: nat, path: bytes, query: bytes)
    requires Find(target, Ascii("://")) == Some(k) && IsHttp(target[..k])
    ensures var rest := target[k + 3..];
            AbsoluteReads(target, k, path, query) <==>
            (match IndexOf(rest, 47)
             case None => path == Ascii("/") && query == []
             case Some(slash) => PartitionQuery(rest[slash..]) == Target(path, query))
  {
    hide IsHttp, QuerySplits, PartitionQuery, Ascii;
    var rest := target[k + 3..];
    match IndexOf(rest, 47)
    case None =>
    case Some(slash) =>
      assert SlashAt(rest, slash) && !Without(rest, 47);
      QueryIff(rest[slash..], path, query);
      assert forall j :: slash < j <= |rest| ==> rest[..j][slash] == rest[slash];
  }

  lemma TargetIff(target: bytes, path: bytes, query: bytes)
    ensures SplitTarget(target) == Some(Target(path, query)) <==> TargetReads(target, path, query)
  {
    StarAndSlash(target);
    hide AbsoluteReads, IsHttp, PartitionQuery, QuerySplits, Lower;
    if target != [] && target[0] == 47 {
      QueryIff(target, path, query);
    } else {
      if target == [42] {
        forall k ensures !AbsoluteReads(target, k, path, query) { StarIsNotAbsolute(target, k, path, query); }
      } else {
        OnlyAbsolute(target, path, query);
      }
    }
    hide Ascii;
  }

  lemma StarAndSlash(target: bytes)
    ensures Ascii("*") == [42] && Ascii("/") == [47] && (Ascii("/") <= target <==> target != [] && target[0] == 47)
  {
  }

  lemma StarIsNotAbsolute(target: bytes, k: int, path: bytes, query: bytes)
    requires |target| == 1
    ensures !AbsoluteReads(target, k, path, query)
  {
  }

  lemma OnlyAbsolute(target: bytes, path: bytes, query: bytes)
    requires !(Ascii("/") <= target) && target != Ascii("*")
    ensures SplitTarget(target) == Some(Target(path, query)) <==> exists k :: AbsoluteReads(target, k, path, query)
  {
    hide PartitionQuery, QuerySplits, Lower, Ascii;
    var found := Find(target, Ascii("://"));
    if found.Some? && IsHttp(target[..found.value]) { AbsoluteIff(target, found.value, path, query); }
    forall k | AbsoluteReads(target, k, path, query) ensures found == Some(k) { SchemeEndsFirst(target, k); }
    if found.Some? { AtFound(target, found.value, path, query); }
  }

  lemma AtFound(target: bytes, k: nat, path: bytes, query: bytes)
    ensures AbsoluteReads(target, k, path, query) ==> IsHttp(target[..k])
  {
  }

  // -- blanks around a value ------------------------------------------------------------------------

  /** Tab, line feed, vertical tab, form feed, carriage return, blank. */
  predicate IsWhite(b: byte) { b in [9, 10, 11, 12, 13, 32] }

  predicate AllSpaces(s: bytes) { forall i :: 0 <= i < |s| ==> IsWhite(s[i]) }

  lemma {:induction false} LeftSpaces(s: bytes) returns (a: bytes)
    ensures AllSpaces(a) && s == a + StripLeft(s) && (StripLeft(s) != [] ==> !IsWhite(StripLeft(s)[0]))
    decreases |s|
  {
    if s != [] && IsSpace(s[0]) {
      var b := LeftSpaces(s[1..]);
      a := [s[0]] + b;
      assert s == a + StripLeft(s);
    } else {
      a := [];
    }
  }

  lemma {:induction false} RightSpaces(s: bytes) returns (b: bytes)
    ensures AllSpaces(b) && s == StripRight(s) + b && (StripRight(s) != [] ==> !IsWhite(StripRight(s)[|StripRight(s)| - 1]))
    decreases |s|
  {
    if s != [] && IsSpace(s[|s| - 1]) {
      var a := RightSpaces(s[..|s| - 1]);
      b := a + [s[|s| - 1]];
      assert s == StripRight(s) + b;
    } else {
      b := [];
    }
  }

  /** Stripping takes the spaces at both ends, and nothing else. */
  lemma StripIs(s: bytes) returns (a: bytes, b: bytes)
    ensures var t := Strip(s);
            && AllSpaces(a) && AllSpaces(b) && s == a + t + b
            && (t != [] ==> !IsWhite(t[0]) && !IsWhite(t[|t| - 1]))
  {
    a := LeftSpaces(s);
    b := RightSpaces(StripLeft(s));
    hide StripLeft, StripRight, IsWhite;
    var t := Strip(s);
    assert s == a + (t + b) == a + t + b;
    if t != [] { assert StripLeft(s)[0] == t[0]; }
  }

  // -- the last field of a name -----------------------------------------------------------------------

  /** The value of the last field of this name, and nothing where there is none. */
  predicate LastSays(headers: seq<Header>, name: bytes, value: bytes) {
    if Absent(headers, name) then value == []
    else
      exists i :: 0 <= i < |headers| && Named(headers[i], name) && headers[i].value == value
                  && forall j :: i < j < |headers| ==> !Named(headers[j], name)
  }

  lemma {:induction false} LastIs(headers: seq<Header>, name: bytes)
    ensures var values := ValuesOf(LowerAll(headers), name);
            LastSays(headers, name, if values == [] then [] else values[|values| - 1])
    decreases |headers|
  {
    CountIff(headers, name);
    hide Lower, LowerAll;
    if headers != [] {
      var n := |headers| - 1;
      var front := headers[..n];
      LowerAllSnoc(headers);
      CountIff(front, name);
      if Named(headers[n], name) {
        LastIsLast(headers, name);
      } else if !Absent(front, name) {
        LastIs(front, name);
        LastOfFront(headers, name, ValuesOf(LowerAll(front), name)[|ValuesOf(LowerAll(front), name)| - 1]);
      }
    }
  }

  lemma LastIsLast(headers: seq<Header>, name: bytes)
    requires headers != [] && Named(headers[|headers| - 1], name)
    ensures !Absent(headers, name) && LastSays(headers, name, headers[|headers| - 1].value)
  {
    hide Named;
  }

  /** A last field of another name does not count. */
  lemma LastOfFront(headers: seq<Header>, name: bytes, value: bytes)
    requires headers != [] && !Named(headers[|headers| - 1], name) && !Absent(headers[..|headers| - 1], name)
    requires LastSays(headers[..|headers| - 1], name, value)
    ensures !Absent(headers, name) && LastSays(headers, name, value)
  {
    hide Named;
    var n := |headers| - 1;
    var front := headers[..n];
    assert forall k :: 0 <= k < n ==> front[k] == headers[k];
    var i :| 0 <= i < n && Named(front[i], name) && front[i].value == value && forall k :: i < k < n ==> !Named(front[k], name);
    assert Named(headers[i], name) && headers[i].value == value;
    assert forall k :: i < k < |headers| ==> !Named(headers[k], name);
  }
}
