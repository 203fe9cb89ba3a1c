/** What a lookup hands over: each parameter has the text of the path that stands where
    the parameter stands in the pattern. */
module RouterCaptures {
  import opened Bytes
  import opened Routing
  import opened RoutingTable
  import opened RoutingResults
  import opened RouterRuns
  import opened RouterOrder

  // -- a pattern against segments, position by position ---------------------------------------

  predicate FitsAt(accepts: Accepts, part: Part, segment: string) {
    match part
    case Lit(text) => segment == text
    case Dyn(_, c) => accepts(c, segment)
    case Rest(_) => true
  }

  predicate EndsOpen(q: Pattern) { q != [] && q[|q| - 1].Rest? }

  /** Every part fits the segment at its position, and a parameter that takes the rest has
      at least one to take. */
  predicate Fits(accepts: Accepts, q: Pattern, segments: seq<string>) {
    && WellFormed(q) && (if EndsOpen(q) then |q| <= |segments| else |q| == |segments|)
    && forall i :: 0 <= i < |q| ==> FitsAt(accepts, q[i], segments[i])
  }

  predicate NamedAt(q: Pattern, i: int, name: string) {
    0 <= i < |q| && ((q[i].Dyn? && q[i].name == name) || (q[i].Rest? && q[i].name == name))
  }

  /** The parameter at `i` is the last of its name. */
  predicate LastNamed(q: Pattern, i: int, name: string) { NamedAt(q, i, name) && forall j :: i < j < |q| ==> !NamedAt(q, j, name) }

  /** The value is that of the path at position `i`: the segment under the converter, or
      all that is left of the path. */
  predicate IsValueAt(q: Pattern, segments: seq<string>, i: int, value: Value)
    requires 0 <= i < |q| && i < |segments|
  {
    match q[i]
    case Lit(_) => false
    case Dyn(_, c) => value == Converted(c, segments[i])
    case Rest(_) => value.Text? && "/" + value.text == PathOf(segments[i..])
  }

  /** The parameters of the pattern and no others, each with its value. */
  ghost predicate Captures(q: Pattern, segments: seq<string>, params: Params)
    requires |q| <= |segments|
  {
    && (forall name :: name in params <==> exists i :: NamedAt(q, i, name))
    && forall i, name :: LastNamed(q, i, name) ==> name in params && IsValueAt(q, segments, i, params[name])
  }

  lemma {:induction false} JoinedIsPath(segments: seq<string>)
    requires segments != []
    ensures "/" + JoinSegments(segments) == PathOf(segments)
    decreases |segments|
  {
    if |segments| == 1 {
      assert segments[1..] == [];
    } else {
      JoinedIsPath(segments[1..]);
      assert "/" + JoinSegments(segments) == "/" + segments[0] + ("/" + JoinSegments(segments[1..]));
    }
  }

  lemma FitsCons(accepts: Accepts, q: Pattern, segments: seq<string>)
    requires q != [] && segments != []
    ensures !q[0].Rest? ==> (Fits(accepts, q, segments) <==> FitsAt(accepts, q[0], segments[0]) && Fits(accepts, q[1..], segments[1..]))
    ensures q[0].Rest? ==> (Fits(accepts, q, segments) <==> |q| == 1)
  {
    hide FitsAt;
    var p, rest := q[1..], segments[1..];
    if !q[0].Rest? {
      if Fits(accepts, p, rest) && FitsAt(accepts, q[0], segments[0]) {
        assert forall i :: 1 <= i < |q| ==> q[i] == p[i - 1] && segments[i] == rest[i - 1];
      }
      if Fits(accepts, q, segments) {
        assert forall i :: 0 <= i < |p| ==> p[i] == q[i + 1] && rest[i] == segments[i + 1];
      }
    } else if |q| == 1 {
      assert FitsAt(accepts, q[0], segments[0]) by { RestFits(accepts, q[0], segments[0]); }
    }
  }

  lemma RestFits(accepts: Accepts, part: Part, segment: string)
    requires part.Rest?
    ensures FitsAt(accepts, part, segment)
  {
  }

  /** A pattern takes a path exactly when it fits. */
  lemma {:induction false} TakesIff(accepts: Accepts, q: Pattern, segments: seq<string>, params: Params)
    ensures MatchPattern(accepts, q, segments, params).Some? <==> Fits(accepts, q, segments)
    decreases |q|
  {
    if q != [] && segments != [] {
      FitsCons(accepts, q, segments);
      hide Fits;
      match q[0]
      case Lit(text) => TakesIff(accepts, q[1..], segments[1..], params);
      case Dyn(name, c) => TakesIff(accepts, q[1..], segments[1..], params[name := Converted(c, segments[0])]);
      case Rest(_) =>
    }
  }

  // -- what is captured --------------------------------------------------------------------------

  /** Behind `before`: names of the pattern have the values of their positions, and the
      others what they had. */
  ghost predicate Fills(q: Pattern, segments: seq<string>, before: Params, after: Params)
    requires |q| <= |segments|
  {
    && (forall name :: name in after <==> name in before || exists i :: NamedAt(q, i, name))
    && (forall i, name :: LastNamed(q, i, name) ==> name in after && IsValueAt(q, segments, i, after[name]))
    && (forall name :: name in before && (forall i :: !NamedAt(q, i, name)) ==> name in after && after[name] == before[name])
  }

  lemma NamedCons(q: Pattern, i: int, name: string)
    requires q != []
    ensures 1 <= i ==> (NamedAt(q, i, name) <==> NamedAt(q[1..], i - 1, name))
    ensures 1 <= i ==> (LastNamed(q, i, name) <==> LastNamed(q[1..], i - 1, name))
    ensures LastNamed(q, 0, name) <==> NamedAt(q, 0, name) && forall j :: !NamedAt(q[1..], j, name)
  {
    assert forall j :: 0 <= j < |q| - 1 ==> q[1..][j] == q[j + 1];
    if LastNamed(q[1..], i - 1, name) {
      forall j | i < j < |q| ensures !NamedAt(q, j, name) { assert !NamedAt(q[1..], j - 1, name); }
    }
    if LastNamed(q, i, name) {
      forall j | i - 1 < j < |q| - 1 ensures !NamedAt(q[1..], j, name) { assert !NamedAt(q, j + 1, name); }
    }
    if LastNamed(q, 0, name) {
      forall j ensures !NamedAt(q[1..], j, name) { if j >= 0 { assert !NamedAt(q, j + 1, name); } }
    }
    if forall j :: !NamedAt(q[1..], j, name) {
      forall j | 0 < j < |q| ensures !NamedAt(q, j, name) { assert !NamedAt(q[1..], j - 1, name); }
    }
  }

  lemma ValueCons(q: Pattern, segments: seq<string>, i: int, value: Value)
    requires 1 <= i < |q| && i < |segments|
    ensures IsValueAt(q, segments, i, value) <==> IsValueAt(q[1..], segments[1..], i - 1, value)
  {
    assert segments[1..][i - 1..] == segments[i..];
  }

  /** A literal or a dynamic part in front. */
  lemma FillsCons(q: Pattern, segments: seq<string>, before: Params, after: Params)
    requires q != [] && |q| <= |segments| && !q[0].Rest?
    requires Fills(q[1..], segments[1..], if q[0].Dyn? then before[q[0].name := Converted(q[0].converter, segments[0])] else before, after)
    ensures Fills(q, segments, before, after)
  {
    var p, rest := q[1..], segments[1..];
    hide IsValueAt, LastNamed;
    forall i, name ensures 1 <= i ==> (NamedAt(q, i, name) <==> NamedAt(p, i - 1, name)) && (LastNamed(q, i, name) <==> LastNamed(p, i - 1, name))
      ensures LastNamed(q, 0, name) <==> NamedAt(q, 0, name) && forall j :: !NamedAt(p, j, name)
    {
      NamedCons(q, i, name);
    }
    forall name ensures (exists i :: NamedAt(q, i, name)) <==> NamedAt(q, 0, name) || exists i :: NamedAt(p, i, name) {
      NamedSomewhere(q, name);
    }
    var mid := if q[0].Dyn? then before[q[0].name := Converted(q[0].converter, segments[0])] else before;
    forall name ensures name in mid <==> name in before || NamedAt(q, 0, name) { }
    forall name ensures name in after <==> name in before || exists i :: NamedAt(q, i, name) {
      assert name in after <==> name in mid || exists i :: NamedAt(p, i, name);
    }
    forall name | name in before && (forall i :: !NamedAt(q, i, name)) ensures name in after && after[name] == before[name] {
      assert !NamedAt(q, 0, name) && !(exists i :: NamedAt(q, i, name));
      assert name in mid && mid[name] == before[name];
    }
    forall i, name | LastNamed(q, i, name) ensures name in after && IsValueAt(q, segments, i, after[name]) {
      LastIsNamed(q, i, name);
      if i == 0 {
        FirstValue(q, segments, after[name]);
      } else {
        ValueCons(q, segments, i, after[name]);
      }
    }
  }

  lemma LastIsNamed(q: Pattern, i: int, name: string)
    requires LastNamed(q, i, name)
    ensures NamedAt(q, i, name)
  {
  }

  lemma NamedSomewhere(q: Pattern, name: string)
    requires q != []
    ensures (exists i :: NamedAt(q, i, name)) <==> NamedAt(q, 0, name) || exists i :: NamedAt(q[1..], i, name)
  {
    if i :| NamedAt(q, i, name) {
      if i > 0 { assert NamedAt(q[1..], i - 1, name); }
    }
    if i :| NamedAt(q[1..], i, name) { assert NamedAt(q, i + 1, name); }
  }

  lemma FirstValue(q: Pattern, segments: seq<string>, value: Value)
    requires q != [] && segments != [] && q[0].Dyn? && value == Converted(q[0].converter, segments[0])
    ensures IsValueAt(q, segments, 0, value)
  {
  }

  lemma {:induction false} MatchFills(accepts: Accepts, q: Pattern, segments: seq<string>, params: Params)
    requires MatchPattern(accepts, q, segments, params).Some?
    ensures |q| <= |segments| && Fills(q, segments, params, MatchPattern(accepts, q, segments, params).value)
    decreases |q|
  {
    var after := MatchPattern(accepts, q, segments, params).value;
    if q != [] {
      match q[0]
      case Lit(_) =>
        MatchFills(accepts, q[1..], segments[1..], params);
        FillsCons(q, segments, params, after);
      case Dyn(name, c) =>
        MatchFills(accepts, q[1..], segments[1..], params[name := Converted(c, segments[0])]);
        FillsCons(q, segments, params, after);
      case Rest(name) => RestFills(q, segments, params);
    }
  }

  lemma RestFills(q: Pattern, segments: seq<string>, params: Params)
    requires |q| == 1 && q[0].Rest? && segments != []
    ensures Fills(q, segments, params, params[q[0].name := Text(JoinSegments(segments))])
  {
    JoinedIsPath(segments);
    assert segments[0..] == segments;
    hide JoinSegments, PathOf;
    assert NamedAt(q, 0, q[0].name);
  }

  lemma MatchCaptures(accepts: Accepts, q: Pattern, segments: seq<string>)
    requires Takes(accepts, q, segments)
    ensures Fits(accepts, q, segments) && |q| <= |segments| && Captures(q, segments, MatchPattern(accepts, q, segments, map[]).value)
  {
    MatchFills(accepts, q, segments, map[]);
    TakesIff(accepts, q, segments, map[]);
    hide MatchPattern, Fits;
  }

  // -- a lookup --------------------------------------------------------------------------------------

  /** After any registrations in which names and converters are coherent, the path of some
      segments is looked up: unless it is registered as it stands, nothing is found
      exactly when no registered pattern fits it, position by position; otherwise the
      preferred pattern that does, with its handlers, and with the parameters that stand
      in it, each with the text at its position; the last of them, if it takes the rest,
      with all that is left, slashes and all. */
  lemma LookupCaptures<T>(calls: seq<Call<T>>, accepts: Accepts, segments: seq<string>)
    requires Coherent(calls) && segments != [] && forall i :: 0 <= i < |segments| ==> IsSegment(segments[i])
    requires At(Registered(calls), Static(PathOf(segments))) == map[]
    ensures match Resolve(Built(calls), accepts, PathOf(segments))
            case None => forall q :: At(Registered(calls), Dynamic(q)) != map[] ==> !Fits(accepts, q, segments)
            case Some(found) =>
              exists q ::
                && Preferred(calls, accepts, q, segments) && Fits(accepts, q, segments) && |q| <= |segments|
                && found.handlers == At(Registered(calls), Dynamic(q)) && Captures(q, segments, found.params)
  {
    PathIsNormal(segments);
    LookupIsLinearScan(calls, accepts, PathOf(segments));
    hide Resolve, Built, Registered, MatchPattern, Coherent, Fits, Captures, PathOf, SplitPath, NormalizePath;
    forall q ensures Takes(accepts, q, segments) <==> Fits(accepts, q, segments) { TakesIff(accepts, q, segments, map[]); }
    if Resolve(Built(calls), accepts, PathOf(segments)).Some? {
      var found := Resolve(Built(calls), accepts, PathOf(segments)).value;
      var q :| Preferred(calls, accepts, q, segments)
               && found == Found(At(Registered(calls), Dynamic(q)), MatchPattern(accepts, q, segments, map[]).value);
      MatchCaptures(accepts, q, segments);
    }
  }

  /** A catch-all behind some parts captures what stands behind as many segments. */
  lemma RestIsCaptured(q: Pattern, segments: seq<string>, params: Params)
    requires EndsOpen(q) && |q| <= |segments| && Captures(q, segments, params)
    ensures var n := |q| - 1; var name := q[n].name;
            name in params && params[name].Text? && "/" + params[name].text == PathOf(segments[n..])
  {
    assert LastNamed(q, |q| - 1, q[|q| - 1].name);
  }

  // -- slashes ---------------------------------------------------------------------------------------

  lemma {:induction false} SplitBehind(a: string, b: string, current: string)
    ensures SplitFrom(a + "/" + b, current) == SplitFrom(a, current) + SplitFrom(b, "")
    decreases |a|
  {
    if a == "" {
      assert a + "/" + b == "/" + b && ("/" + b)[1..] == b;
    } else {
      assert (a + "/" + b)[1..] == a[1..] + "/" + b;
      if a[0] == '/' {
        SplitBehind(a[1..], b, "");
        var done := if current == "" then [] else [current];
        assert done + (SplitFrom(a[1..], "") + SplitFrom(b, "")) == done + SplitFrom(a[1..], "") + SplitFrom(b, "");
      } else {
        SplitBehind(a[1..], b, current + [a[0]]);
      }
    }
  }

  /** A slash ends a segment, and nothing else does: the segments before it and those
      behind it, and for a text without slashes itself. */
  lemma SplitIs(a: string, b: string)
    ensures SplitPath(a + "/" + b) == SplitPath(a) + SplitPath(b)
    ensures '/' !in a ==> SplitPath(a) == if a == "" then [] else [a]
  {
    SplitBehind(a, b, "");
    if '/' !in a {
      SplitReads(a, "", "");
      assert a + "" == a && "" + a == a;
    }
  }

  // -- routes as they are written ------------------------------------------------------------------

  function ConverterName(c: Converter): string {
    match c
    case StrConv => "str"
    case IntConv => "int"
    case FloatConv => "float"
    case UuidConv => "uuid"
  }

  /** A part as a route writes it; a text parameter may leave its converter out. */
  function PrintPart(part: Part, short: bool): string {
    match part
    case Lit(text) => text
    case Dyn(name, c) => if short && c.StrConv? then "{" + name + "}" else "{" + name + ":" + ConverterName(c) + "}"
    case Rest(name) => "{" + name + ":path}"
  }

  predicate IsPart(part: Part) {
    match part
    case Lit(text) => IsSegment(text) && '{' !in text && '}' !in text && text[|text| - 1] != '\n'
    case Dyn(name, _) => IsName(name)
    case Rest(name) => IsName(name)
  }

  function PrintParts(q: Pattern, short: bool): (r: seq<string>)
    ensures |r| == |q|
  {
    seq(|q|, i requires 0 <= i < |q| => PrintPart(q[i], short))
  }

  lemma NameHasNoColon(name: string)
    requires IsName(name)
    ensures ':' !in name && '/' !in name && '{' !in name && '}' !in name
  {
    forall c | c in name ensures c != ':' && c != '/' && c != '{' && c != '}' {
      var i :| 0 <= i < |name| && name[i] == c;
      assert NameChar(name[i]);
    }
  }

  lemma {:induction false} ColonIsAt(s: string, k: nat)
    requires k < |s| && s[k] == ':' && forall i :: 0 <= i < k ==> s[i] != ':'
    ensures IndexOfChar(s, ':') == k
    decreases k
  {
    if k > 0 {
      assert s[1..][k - 1] == ':' && forall i :: 0 <= i < k - 1 ==> s[1..][i] == s[i + 1];
      ColonIsAt(s[1..], k - 1);
    }
  }

  lemma NameIsRead(name: string)
    requires IsName(name)
    ensures ReadSegment("{" + name + "}") == Parameter(name, "str")
  {
    var s := "{" + name + "}";
    assert s[1..|s| - 1] == name;
    hide IsName, IndexOfChar;
  }

  lemma NameAndConverterAreRead(name: string, converter: string)
    requires IsName(name) && IsConverterName(converter)
    ensures ReadSegment("{" + name + ":" + converter + "}") == Parameter(name, converter)
  {
    var s := "{" + name + ":" + converter + "}";
    var inner := name + ":" + converter;
    assert s[1..|s| - 1] == inner;
    NameHasNoColon(name);
    assert forall i :: 0 <= i < |name| ==> inner[i] == name[i] && inner[i] in name;
    ColonIsAt(inner, |name|);
    assert inner[..|name|] == name && inner[|name| + 1..] == converter;
    assert !IsName(inner) by { assert !NameChar(inner[|name|]); }
    hide IsName, IndexOfChar, IsConverterName;
  }

  lemma ConverterNames()
    ensures forall c :: IsConverterName(ConverterName(c)) && ConverterName(c) != "path" && ConverterOf(ConverterName(c)) == Some(c)
    ensures IsConverterName("path")
  {
    forall c ensures IsConverterName(ConverterName(c)) && ConverterName(c) != "path" && ConverterOf(ConverterName(c)) == Some(c) {
      match c
      case StrConv => assert ConverterName(c) == "str";
      case IntConv => assert ConverterName(c) == "int";
      case FloatConv => assert ConverterName(c) == "float";
      case UuidConv => assert ConverterName(c) == "uuid";
    }
  }

  lemma PartIsRead(part: Part, short: bool)
    requires IsPart(part)
    ensures ReadSegment(PrintPart(part, short)) ==
            match part
            case Lit(text) => Literal(text)
            case Dyn(name, c) => Parameter(name, ConverterName(c))
            case Rest(name) => Parameter(name, "path")
  {
    ConverterNames();
    hide IsName, IsConverterName, IndexOfChar, ConverterOf;
    match part
    case Lit(text) => hide ConverterName;
    case Dyn(name, c) =>
      NameIsRead(name);
      NameAndConverterAreRead(name, ConverterName(c));
      hide ReadSegment;
    case Rest(name) =>
      NameAndConverterAreRead(name, "path");
      assert "{" + name + ":" + "path" + "}" == "{" + name + ":path}";
      hide ReadSegment;
  }

  lemma {:induction false} PartsAreRead(q: Pattern, short: bool)
    requires WellFormed(q) && forall i :: 0 <= i < |q| ==> IsPart(q[i])
    ensures WalkOf(PrintParts(q, short)) == Walk(q, None)
    decreases |q|
  {
    if q != [] {
      var segments := PrintParts(q, short);
      PrintedCons(q, short);
      FirstPartIsRead(q[0], short, PrintParts(q[1..], short));
      hide WalkOf, PrintPart, PrintParts, IsPart, WellFormed;
      if q[0].Rest? {
        OpenIsLast(q);
        assert q == [q[0]] && q[1..] == [];
      } else {
        RestIsWellFormed(q);
        PartsAreRead(q[1..], short);
        assert q == [q[0]] + q[1..];
      }
    }
  }

  lemma PrintedCons(q: Pattern, short: bool)
    requires q != []
    ensures PrintParts(q, short) == [PrintPart(q[0], short)] + PrintParts(q[1..], short)
    ensures PrintParts([], short) == []
  {
    hide PrintPart;
  }

  /** A part in front of other segments. */
  lemma FirstPartIsRead(part: Part, short: bool, rest: seq<string>)
    requires IsPart(part)
    ensures var w, more := WalkOf([PrintPart(part, short)] + rest), WalkOf(rest);
            if part.Rest? then rest == [] ==> w == Walk([part], None) else w == Walk([part] + more.parts, more.refusal)
  {
    PartIsRead(part, short);
    ConverterNames();
    hide ReadSegment, PrintPart, IsPart, ConverterOf, ConverterName;
    var segments := [PrintPart(part, short)] + rest;
    assert segments[0] == PrintPart(part, short) && segments[1..] == rest;
    if part.Dyn? { assert ConverterName(part.converter) != "path"; }
  }

  lemma RestIsWellFormed(q: Pattern)
    requires WellFormed(q) && q != []
    ensures WellFormed(q[1..])
  {
  }

  lemma OpenIsLast(q: Pattern)
    requires WellFormed(q) && q != [] && q[0].Rest?
    ensures |q| == 1
  {
    assert !(0 <= 0 < |q| - 1);
  }

  lemma PrintedAreSegments(q: Pattern, short: bool)
    requires forall i :: 0 <= i < |q| ==> IsPart(q[i])
    ensures forall i :: 0 <= i < |q| ==> IsSegment(PrintParts(q, short)[i])
  {
    forall i | 0 <= i < |q| ensures IsSegment(PrintPart(q[i], short)) {
      match q[i]
      case Lit(_) =>
      case Dyn(name, c) =>
        NameHasNoColon(name);
        assert '/' !in ConverterName(c);
        hide ConverterName, IsName;
      case Rest(name) =>
        NameHasNoColon(name);
        assert '/' !in ":path}";
        hide IsName;
    }
  }

  /** A route that is written as its parts is registered as those parts. */
  lemma RouteIsReadAsWritten(q: Pattern, short: bool)
    requires q != [] && WellFormed(q) && forall i :: 0 <= i < |q| ==> IsPart(q[i])
    ensures WalkOf(SplitPath(NormalizePath(PathOf(PrintParts(q, short))))) == Walk(q, None)
  {
    PrintedAreSegments(q, short);
    PathIsNormal(PrintParts(q, short));
    PartsAreRead(q, short);
    hide WalkOf, PathOf, SplitPath, NormalizePath, PrintParts;
  }

  // -- exactly which segments are parameters, and which routes are refused --------------------------

  predicate IsLetter(c: char) { 'a' <= c <= 'z' || 'A' <= c <= 'Z' }

  predicate IsIdentifier(s: string) {
    && s != "" && (IsLetter(s[0]) || s[0] == '_')
    && forall i :: 0 <= i < |s| ==> IsLetter(s[i]) || s[i] == '_' || '0' <= s[i] <= '9'
  }

  predicate IsWord(s: string) { s != "" && forall i :: 0 <= i < |s| ==> IsLetter(s[i]) || s[i] == '_' }

  /** `{name}` or `{name:converter}`, and perhaps a line feed behind it. */
  predicate IsParameter(segment: string, name: string, converter: string) {
    && IsIdentifier(name)
    && var body := "{" + name + "}"; var full := "{" + name + ":" + converter + "}";
       || (converter == "str" && (segment == body || segment == body + "\n"))
       || (IsWord(converter) && (segment == full || segment == full + "\n"))
  }

  lemma NamesAre(s: string)
    ensures (IsName(s) <==> IsIdentifier(s)) && (IsConverterName(s) <==> IsWord(s))
  {
  }

  function WithoutFeed(segment: string): string {
    if segment != "" && segment[|segment| - 1] == '\n' then segment[..|segment| - 1] else segment
  }

  lemma FeedIsDropped(segment: string, name: string, converter: string)
    ensures WithoutFeed(segment) == segment ==> (ReadSegment(segment) == Parameter(name, converter) <==> ReadSegment(WithoutFeed(segment)) == Parameter(name, converter))
    ensures segment != "" && segment[|segment| - 1] == '\n' && WithoutFeed(WithoutFeed(segment)) == WithoutFeed(segment) ==>
              (ReadSegment(segment) == Parameter(name, converter) <==> ReadSegment(WithoutFeed(segment)) == Parameter(name, converter))
  {
    hide IsName, IsConverterName, IndexOfChar;
  }

  lemma ParameterIsRead(segment: string, name: string, converter: string)
    requires IsParameter(segment, name, converter)
    ensures ReadSegment(segment) == Parameter(name, converter)
  {
    NamesAre(name);
    NamesAre(converter);
    hide IsName, IsConverterName, IsIdentifier, IsWord;
    var body, full := "{" + name + "}", "{" + name + ":" + converter + "}";
    NameIsRead(name);
    if IsConverterName(converter) { NameAndConverterAreRead(name, converter); }
    var plain := WithoutFeed(segment);
    assert (body + "\n")[..|body|] == body && (full + "\n")[..|full|] == full;
    assert body[|body| - 1] == '}' && full[|full| - 1] == '}';
    FeedIsDropped(segment, name, converter);
    hide ReadSegment;
  }

  lemma ReadIsParameter(segment: string, name: string, converter: string)
    requires ReadSegment(segment) == Parameter(name, converter)
    ensures IsParameter(segment, name, converter)
  {
    NamesAre(name);
    NamesAre(converter);
    hide IsName, IsConverterName, IsIdentifier, IsWord, IndexOfChar;
    var s := WithoutFeed(segment);
    var inner := s[1..|s| - 1];
    assert s == "{" + inner + "}";
    assert segment == s || segment == s + "\n";
    if !IsName(inner) {
      var colon := IndexOfChar(inner, ':');
      ColonStands(inner);
      assert inner == name + ":" + converter;
    }
  }

  lemma {:induction false} ColonStands(s: string)
    ensures IndexOfChar(s, ':') < |s| ==> s[IndexOfChar(s, ':')] == ':'
    decreases |s|
  {
    if s != "" && s[0] != ':' { ColonStands(s[1..]); }
  }

  /** A segment is a parameter exactly if it is written like one; of the others, those with
      a brace are refused, and the rest stand for themselves. */
  lemma SegmentIff(segment: string)
    ensures forall name, converter :: ReadSegment(segment) == Parameter(name, converter) <==> IsParameter(segment, name, converter)
    ensures ReadSegment(segment).NotASegment? <==>
            ('{' in segment || '}' in segment) && forall name, converter :: !IsParameter(segment, name, converter)
    ensures ReadSegment(segment).Literal? ==> ReadSegment(segment).text == segment
  {
    forall name, converter ensures ReadSegment(segment) == Parameter(name, converter) <==> IsParameter(segment, name, converter) {
      if ReadSegment(segment) == Parameter(name, converter) { ReadIsParameter(segment, name, converter); }
      if IsParameter(segment, name, converter) { ParameterIsRead(segment, name, converter); }
    }
    BracesDecide(segment);
    hide ReadSegment, IsParameter;
    if ReadSegment(segment).Parameter? { assert IsParameter(segment, ReadSegment(segment).name, ReadSegment(segment).converter); }
  }

  lemma BracesDecide(segment: string)
    ensures !ReadSegment(segment).Parameter? ==>
              ReadSegment(segment) == if '{' in segment || '}' in segment then NotASegment else Literal(segment)
  {
    hide IsName, IsConverterName, IndexOfChar;
  }

  predicate IsKnown(converter: string) { converter == "str" || converter == "int" || converter == "float" || converter == "uuid" }

  /** The segment at `i` may stand in a route. */
  predicate MayStand(segments: seq<string>, i: int)
    requires 0 <= i < |segments|
  {
    match ReadSegment(segments[i])
    case NotASegment => false
    case Literal(_) => true
    case Parameter(_, converter) => IsKnown(converter) || (converter == "path" && i == |segments| - 1)
  }

  lemma KnownIff(converter: string)
    ensures ConverterOf(converter).Some? <==> IsKnown(converter)
  {
  }

  /** A route is well formed exactly if every segment may stand where it stands. */
  lemma {:induction false} WalkIsWholeIff(segments: seq<string>)
    ensures WalkOf(segments).refusal.None? <==> forall i :: 0 <= i < |segments| ==> MayStand(segments, i)
    decreases |segments|
  {
    if segments != [] {
      var rest := segments[1..];
      WalkIsWholeIff(rest);
      forall i | 1 <= i < |segments| ensures MayStand(segments, i) <==> MayStand(rest, i - 1) { }
      if ReadSegment(segments[0]).Parameter? { KnownIff(ReadSegment(segments[0]).converter); }
      StandsCons(segments);
      hide ReadSegment, MayStand, ConverterOf, IsKnown;
      FirstStands(segments);
    }
  }

  lemma StandsCons(segments: seq<string>)
    requires segments != []
    ensures (forall i :: 0 <= i < |segments| ==> MayStand(segments, i)) <==>
            MayStand(segments, 0) && forall i :: 0 <= i < |segments| - 1 ==> MayStand(segments[1..], i)
  {
    hide ReadSegment;
    forall i | 1 <= i < |segments| ensures MayStand(segments, i) <==> MayStand(segments[1..], i - 1) { }
    if forall i :: 0 <= i < |segments| - 1 ==> MayStand(segments[1..], i) {
      forall i | 1 <= i < |segments| ensures MayStand(segments, i) { assert MayStand(segments[1..], i - 1); }
    }
    if forall i :: 0 <= i < |segments| ==> MayStand(segments, i) {
      forall i | 0 <= i < |segments| - 1 ensures MayStand(segments[1..], i) { assert MayStand(segments, i + 1); }
    }
  }

  lemma FirstStands(segments: seq<string>)
    requires segments != []
    ensures MayStand(segments, 0) <==>
            match ReadSegment(segments[0])
            case NotASegment => false
            case Literal(_) => true
            case Parameter(_, converter) => ConverterOf(converter).Some? || (converter == "path" && |segments| == 1)
    ensures ConverterOf("path").None?
  {
    hide ReadSegment;
    if ReadSegment(segments[0]).Parameter? { KnownIff(ReadSegment(segments[0]).converter); }
    KnownIff("path");
  }
}
