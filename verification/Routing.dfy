/** The route table: static paths in a dictionary, dynamic ones in a segment tree that
    is searched with backtracking. */
module Routing {
  import opened Bytes

  // -- paths ----------------------------------------------------------------------

  function StripSlashes(path: string): string {
    if path != "" && path[|path| - 1] == '/' then StripSlashes(path[..|path| - 1]) else path
  }

  /** A leading slash and no trailing one. */
  function NormalizePath(path: string): string {
    if path == "" then "/"
    else
      var rooted := if path[0] == '/' then path else "/" + path;
      var stripped := StripSlashes(rooted);
      if stripped == "" then "/" else stripped
  }

  /** The non-empty segments; `current` is the one being read. */
  function SplitFrom(path: string, current: string): seq<string>
    decreases |path|
  {
    var done := if current == "" then [] else [current];
    if path == "" then done
    else if path[0] == '/' then done + SplitFrom(path[1..], "")
    else SplitFrom(path[1..], current + [path[0]])
  }

  function SplitPath(path: string): seq<string> { SplitFrom(path, "") }

  function JoinSegments(segments: seq<string>): string {
    if segments == [] then ""
    else if |segments| == 1 then segments[0]
    else segments[0] + "/" + JoinSegments(segments[1..])
  }

  // -- the segments of a route -------------------------------------------------------

  datatype Converter = StrConv | IntConv | FloatConv | UuidConv

  /** One part of a route: a literal, a parameter with its converter, or a parameter
      that takes all the remaining segments. */
  datatype Part = Lit(text: string) | Dyn(name: string, converter: Converter) | Rest(name: string)

  type Pattern = seq<Part>

  predicate NameStart(c: char) { 'a' <= c <= 'z' || 'A' <= c <= 'Z' || c == '_' }

  predicate NameChar(c: char) { NameStart(c) || '0' <= c <= '9' }

  predicate IsName(s: string) { s != "" && NameStart(s[0]) && forall i :: 0 <= i < |s| ==> NameChar(s[i]) }

  predicate IsConverterName(s: string) { s != "" && forall i :: 0 <= i < |s| ==> NameStart(s[i]) }

  function IndexOfChar(s: string, c: char): nat {
    if s == "" || s[0] == c then 0 else 1 + IndexOfChar(s[1..], c)
  }

  datatype Segment = Literal(text: string) | Parameter(name: string, converter: string) | NotASegment

  /** `{name}` or `{name:converter}`; the expression's `$` lets a final newline pass. */
  function ReadSegment(segment: string): Segment {
    var s := if segment != "" && segment[|segment| - 1] == '\n' then segment[..|segment| - 1] else segment;
    var braced := |s| >= 2 && s[0] == '{' && s[|s| - 1] == '}';
    var inner := if braced then s[1..|s| - 1] else "";
    var colon := IndexOfChar(inner, ':');
    if braced && IsName(inner) then Parameter(inner, "str")
    else if braced && colon < |inner| && IsName(inner[..colon]) && IsConverterName(inner[colon + 1..])
    then Parameter(inner[..colon], inner[colon + 1..])
    else if '{' in segment || '}' in segment then NotASegment
    else Literal(segment)
  }

  function ConverterOf(name: string): Option<Converter> {
    if name == "str" then Some(StrConv)
    else if name == "int" then Some(IntConv)
    else if name == "float" then Some(FloatConv)
    else if name == "uuid" then Some(UuidConv)
    else None
  }

  datatype Refusal = Malformed | UnknownConverter | PathNotLast | Conflict

  /** The parts that are walked, and what stops the walk before its end, if anything. */
  datatype Walk = Walk(parts: Pattern, refusal: Option<Refusal>)

  function WalkOf(segments: seq<string>): Walk {
    if segments == [] then Walk([], None)
    else
      match ReadSegment(segments[0])
      case NotASegment => Walk([], Some(Malformed))
      case Literal(text) => var w := WalkOf(segments[1..]); Walk([Lit(text)] + w.parts, w.refusal)
      case Parameter(name, converter) =>
        if converter == "path" then
          if |segments| > 1 then Walk([], Some(PathNotLast)) else Walk([Rest(name)], None)
        else
          match ConverterOf(converter)
          case None => Walk([], Some(UnknownConverter))
          case Some(c) => var w := WalkOf(segments[1..]); Walk([Dyn(name, c)] + w.parts, w.refusal)
  }

  /** A parameter that takes the rest is the last part. */
  predicate WellFormed(pattern: Pattern) { forall i :: 0 <= i < |pattern| - 1 ==> !pattern[i].Rest? }

  lemma {:induction false} WalksAreWellFormed(segments: seq<string>)
    ensures WellFormed(WalkOf(segments).parts)
    ensures WalkOf(segments).parts != [] && WalkOf(segments).parts[|WalkOf(segments).parts| - 1].Rest? ==>
              WalkOf(segments).refusal.None?
    decreases |segments|
  {
    if segments != [] { WalksAreWellFormed(segments[1..]); }
  }

  // -- the tree ---------------------------------------------------------------------

  datatype Tree<T> = Tree(
    literal: seq<LitEdge<T>>,
    dynamic: seq<DynEdge<T>>,
    catchAll: Option<CatchAll<T>>,
    handlers: map<string, T>)

  datatype LitEdge<T> = LitEdge(text: string, child: Tree<T>)

  datatype DynEdge<T> = DynEdge(name: string, converter: Converter, child: Tree<T>)

  datatype CatchAll<T> = CatchAll(name: string, handlers: map<string, T>)

  function Leaf<T>(): Tree<T> { Tree([], [], None, map[]) }

  datatype Put<T> = Put(verb: string, value: T)

  function PutIn<T>(handlers: map<string, T>, put: Option<Put<T>>): map<string, T> {
    if put.Some? && put.value.verb !in handlers then handlers[put.value.verb := put.value.value] else handlers
  }

  /** Walk along the parts, creating what is missing, and put the value where the walk
      ends; without a value, the nodes are created all the same. */
  function Insert<T>(node: Tree<T>, parts: Pattern, put: Option<Put<T>>): Tree<T>
    decreases |parts|, 1, 0
  {
    if parts == [] then node.(handlers := PutIn(node.handlers, put))
    else
      match parts[0]
      case Lit(text) => node.(literal := InsertLit(node.literal, parts, put))
      case Dyn(name, converter) => node.(dynamic := InsertDyn(node.dynamic, parts, put))
      case Rest(name) =>
        var c := if node.catchAll.Some? then node.catchAll.value else CatchAll(name, map[]);
        node.(catchAll := Some(c.(handlers := PutIn(c.handlers, put))))
  }

  function InsertLit<T>(edges: seq<LitEdge<T>>, parts: Pattern, put: Option<Put<T>>): seq<LitEdge<T>>
    requires parts != [] && parts[0].Lit?
    decreases |parts|, 0, |edges|
  {
    if edges == [] then [LitEdge(parts[0].text, Insert(Leaf(), parts[1..], put))]
    else if edges[0].text == parts[0].text then [edges[0].(child := Insert(edges[0].child, parts[1..], put))] + edges[1..]
    else [edges[0]] + InsertLit(edges[1..], parts, put)
  }

  /** An edge is found by its name alone and keeps its first converter. */
  function InsertDyn<T>(edges: seq<DynEdge<T>>, parts: Pattern, put: Option<Put<T>>): seq<DynEdge<T>>
    requires parts != [] && parts[0].Dyn?
    decreases |parts|, 0, |edges|
  {
    if edges == [] then [DynEdge(parts[0].name, parts[0].converter, Insert(Leaf(), parts[1..], put))]
    else if edges[0].name == parts[0].name then [edges[0].(child := Insert(edges[0].child, parts[1..], put))] + edges[1..]
    else [edges[0]] + InsertDyn(edges[1..], parts, put)
  }

  // -- the search -------------------------------------------------------------------------

  /** What a parameter captures: a converter's result on a segment, or the text of all
      the remaining segments. */
  datatype Value = Converted(converter: Converter, text: string) | Text(text: string)

  type Params = map<string, Value>

  datatype Found<T> = Found(handlers: map<string, T>, params: Params)

  /** Which segments each converter takes. */
  type Accepts = (Converter, string) -> bool

  function FindLit<T>(edges: seq<LitEdge<T>>, text: string): Option<Tree<T>> {
    if edges == [] then None
    else if edges[0].text == text then Some(edges[0].child)
    else FindLit(edges[1..], text)
  }

  function Match<T>(accepts: Accepts, node: Tree<T>, segments: seq<string>, params: Params): Option<Found<T>>
    decreases |segments|, 1, 0
  {
    if segments == [] then
      if node.handlers != map[] then Some(Found(node.handlers, params)) else None
    else
      var child := FindLit(node.literal, segments[0]);
      var literal := if child.Some? then Match(accepts, child.value, segments[1..], params) else None;
      if literal.Some? then literal
      else
        var dynamic := MatchDyn(accepts, node.dynamic, segments, params);
        if dynamic.Some? then dynamic else MatchRest(node.catchAll, segments, params)
  }

  function MatchDyn<T>(accepts: Accepts, edges: seq<DynEdge<T>>, segments: seq<string>, params: Params): Option<Found<T>>
    requires segments != []
    decreases |segments|, 0, |edges|
  {
    if edges == [] then None
    else
      var e := edges[0];
      var matched := if accepts(e.converter, segments[0])
                     then Match(accepts, e.child, segments[1..], params[e.name := Converted(e.converter, segments[0])])
                     else None;
      if matched.Some? then matched else MatchDyn(accepts, edges[1..], segments, params)
  }

  function MatchRest<T>(catchAll: Option<CatchAll<T>>, segments: seq<string>, params: Params): Option<Found<T>> {
    if catchAll.Some? && catchAll.value.handlers != map[]
    then Some(Found(catchAll.value.handlers, params[catchAll.value.name := Text(JoinSegments(segments))]))
    else None
  }

  // -- the linear scan ------------------------------------------------------------------------

  datatype Entry<T> = Entry(pattern: Pattern, handlers: map<string, T>)

  /** One pattern against one path. */
  function MatchPattern(accepts: Accepts, pattern: Pattern, segments: seq<string>, params: Params): Option<Params>
    decreases |pattern|
  {
    if pattern == [] then if segments == [] then Some(params) else None
    else if segments == [] then None
    else
      match pattern[0]
      case Lit(text) => if segments[0] == text then MatchPattern(accepts, pattern[1..], segments[1..], params) else None
      case Dyn(name, c) =>
        if accepts(c, segments[0])
        then MatchPattern(accepts, pattern[1..], segments[1..], params[name := Converted(c, segments[0])]) else None
      case Rest(name) => if |pattern| == 1 then Some(params[name := Text(JoinSegments(segments))]) else None
  }

  /** The first entry whose pattern matches. */
  function Scan<T>(accepts: Accepts, entries: seq<Entry<T>>, segments: seq<string>, params: Params): Option<Found<T>> {
    if entries == [] then None
    else
      var matched := MatchPattern(accepts, entries[0].pattern, segments, params);
      if matched.Some? then Some(Found(entries[0].handlers, matched.value))
      else Scan(accepts, entries[1..], segments, params)
  }

  function Prefixed<T>(part: Part, entries: seq<Entry<T>>): (r: seq<Entry<T>>)
    ensures |r| == |entries|
    ensures forall i :: 0 <= i < |r| ==> r[i] == Entry([part] + entries[i].pattern, entries[i].handlers)
  {
    if entries == [] then []
    else [Entry([part] + entries[0].pattern, entries[0].handlers)] + Prefixed(part, entries[1..])
  }

  /** The routes of a tree, in the order in which they are preferred. */
  function Entries<T>(node: Tree<T>): seq<Entry<T>>
    decreases node
  {
    (if node.handlers != map[] then [Entry([], node.handlers)] else [])
    + LitEntries(node.literal) + DynEntries(node.dynamic) + RestEntries(node.catchAll)
  }

  function LitEntries<T>(edges: seq<LitEdge<T>>): seq<Entry<T>>
    decreases edges
  {
    if edges == [] then [] else Prefixed(Lit(edges[0].text), Entries(edges[0].child)) + LitEntries(edges[1..])
  }

  function DynEntries<T>(edges: seq<DynEdge<T>>): seq<Entry<T>>
    decreases edges
  {
    if edges == [] then []
    else Prefixed(Dyn(edges[0].name, edges[0].converter), Entries(edges[0].child)) + DynEntries(edges[1..])
  }

  function RestEntries<T>(catchAll: Option<CatchAll<T>>): seq<Entry<T>> {
    if catchAll.Some? && catchAll.value.handlers != map[] then [Entry([Rest(catchAll.value.name)], catchAll.value.handlers)]
    else []
  }

  /** Names are unique among the edges of a node. */
  predicate Unique<T>(node: Tree<T>)
    decreases node
  {
    UniqueLits(node.literal) && UniqueDyns(node.dynamic)
  }

  predicate UniqueLits<T>(edges: seq<LitEdge<T>>)
    decreases edges
  {
    edges != [] ==>
      Unique(edges[0].child) && UniqueLits(edges[1..]) && forall i :: 0 < i < |edges| ==> edges[i].text != edges[0].text
  }

  predicate UniqueDyns<T>(edges: seq<DynEdge<T>>)
    decreases edges
  {
    edges != [] ==>
      Unique(edges[0].child) && UniqueDyns(edges[1..]) && forall i :: 0 < i < |edges| ==> edges[i].name != edges[0].name
  }

  // -- the search is the scan --------------------------------------------------------------------

  lemma {:induction false} ScanConcat<T>(accepts: Accepts, a: seq<Entry<T>>, b: seq<Entry<T>>, segments: seq<string>, params: Params)
    ensures Scan(accepts, a + b, segments, params) ==
            if Scan(accepts, a, segments, params).Some? then Scan(accepts, a, segments, params)
            else Scan(accepts, b, segments, params)
    decreases |a|
  {
    if a == [] {
      assert a + b == b;
    } else {
      assert (a + b)[1..] == a[1..] + b;
      ScanConcat(accepts, a[1..], b, segments, params);
    }
  }

  /** A part in front of every pattern. */
  function AfterPart(accepts: Accepts, part: Part, segments: seq<string>, params: Params): Option<Params> {
    if segments == [] then None
    else
      match part
      case Lit(text) => if segments[0] == text then Some(params) else None
      case Dyn(name, c) => if accepts(c, segments[0]) then Some(params[name := Converted(c, segments[0])]) else None
      case Rest(_) => None
  }

  lemma {:induction false} ScanPrefixed<T>(accepts: Accepts, part: Part, entries: seq<Entry<T>>, segments: seq<string>, params: Params)
    requires !part.Rest?
    ensures Scan(accepts, Prefixed(part, entries), segments, params) ==
            if AfterPart(accepts, part, segments, params).None? then None
            else Scan(accepts, entries, segments[1..], AfterPart(accepts, part, segments, params).value)
    decreases |entries|
  {
    if entries != [] {
      var p := [part] + entries[0].pattern;
      assert p[1..] == entries[0].pattern;
      ScanPrefixed(accepts, part, entries[1..], segments, params);
      assert Prefixed(part, entries)[1..] == Prefixed(part, entries[1..]);
    }
  }

  lemma {:induction false} OwnScan<T>(accepts: Accepts, handlers: map<string, T>, segments: seq<string>, params: Params)
    ensures Scan(accepts, if handlers != map[] then [Entry([], handlers)] else [], segments, params) ==
            if segments == [] && handlers != map[] then Some(Found(handlers, params)) else None
  {
  }

  lemma {:induction false} LitScan<T>(accepts: Accepts, edges: seq<LitEdge<T>>, segments: seq<string>, params: Params)
    requires UniqueLits(edges)
    ensures Scan(accepts, LitEntries(edges), segments, params) ==
            if segments == [] then None
            else var child := FindLit(edges, segments[0]);
                 if child.Some? then Match(accepts, child.value, segments[1..], params) else None
    decreases edges
  {
    if edges != [] {
      var e := edges[0];
      ScanConcat(accepts, Prefixed(Lit(e.text), Entries(e.child)), LitEntries(edges[1..]), segments, params);
      ScanPrefixed(accepts, Lit(e.text), Entries(e.child), segments, params);
      LitScan(accepts, edges[1..], segments, params);
      if segments != [] && segments[0] == e.text {
        TreeIsScan(accepts, e.child, segments[1..], params);
        NoOtherLit(edges[1..], e.text);
      }
    }
  }

  lemma {:induction false} NoOtherLit<T>(edges: seq<LitEdge<T>>, text: string)
    requires forall i :: 0 <= i < |edges| ==> edges[i].text != text
    ensures FindLit(edges, text).None?
    decreases |edges|
  {
    if edges != [] { NoOtherLit(edges[1..], text); }
  }

  lemma {:induction false} DynScan<T>(accepts: Accepts, edges: seq<DynEdge<T>>, segments: seq<string>, params: Params)
    requires UniqueDyns(edges)
    ensures Scan(accepts, DynEntries(edges), segments, params) ==
            if segments == [] then None else MatchDyn(accepts, edges, segments, params)
    decreases edges
  {
    if edges != [] {
      var e := edges[0];
      var part := Dyn(e.name, e.converter);
      ScanConcat(accepts, Prefixed(part, Entries(e.child)), DynEntries(edges[1..]), segments, params);
      ScanPrefixed(accepts, part, Entries(e.child), segments, params);
      DynScan(accepts, edges[1..], segments, params);
      if segments != [] && accepts(e.converter, segments[0]) {
        TreeIsScan(accepts, e.child, segments[1..], params[e.name := Converted(e.converter, segments[0])]);
      }
    }
  }

  lemma {:induction false} RestScan<T>(accepts: Accepts, catchAll: Option<CatchAll<T>>, segments: seq<string>, params: Params)
    ensures Scan(accepts, RestEntries(catchAll), segments, params) ==
            if segments == [] then None else MatchRest(catchAll, segments, params)
  {
  }

  /** The backtracking search of the tree gives what a linear scan of its routes gives. */
  lemma {:induction false} TreeIsScan<T>(accepts: Accepts, node: Tree<T>, segments: seq<string>, params: Params)
    requires Unique(node)
    ensures Match(accepts, node, segments, params) == Scan(accepts, Entries(node), segments, params)
    decreases node
  {
    hide Scan;
    var own := if node.handlers != map[] then [Entry([], node.handlers)] else [];
    var lits, dyns, rest := LitEntries(node.literal), DynEntries(node.dynamic), RestEntries(node.catchAll);
    ScanConcat(accepts, own + lits + dyns, rest, segments, params);
    ScanConcat(accepts, own + lits, dyns, segments, params);
    ScanConcat(accepts, own, lits, segments, params);
    OwnScan(accepts, node.handlers, segments, params);
    LitScan(accepts, node.literal, segments, params);
    DynScan(accepts, node.dynamic, segments, params);
    RestScan(accepts, node.catchAll, segments, params);
  }
}
