/** The router as a whole, over any sequence of registrations. */
module RouterRuns {
  import opened Bytes
  import opened Routing
  import opened RoutingTable
  import opened RoutingResults

  datatype Routes<T> = Routes(statics: map<string, map<string, T>>, root: Tree<T>)

  datatype Added<T> = Added(next: Routes<T>, refusal: Option<Refusal>)

  predicate IsDynamic(path: string) { '{' in path }

  /** `add`: a refused registration raises, and leaves behind the nodes it created. */
  function Add<T>(r: Routes<T>, verb: string, path: string, value: T): Added<T> {
    var path := NormalizePath(path);
    if IsDynamic(path) then
      var w := WalkOf(SplitPath(path));
      if w.refusal.Some? then Added(r.(root := Insert(r.root, w.parts, None)), w.refusal)
      else
        var refused := verb in HandlersAt(r.root, Effective(r.root, w.parts));
        Added(r.(root := Insert(r.root, w.parts, Some(Put(verb, value)))), if refused then Some(Conflict) else None)
    else
      var handlers := GetStatic(r.statics, path);
      if verb in handlers then Added(r, Some(Conflict))
      else Added(r.(statics := r.statics[path := handlers[verb := value]]), None)
  }

  function GetStatic<T>(statics: map<string, map<string, T>>, path: string): map<string, T> {
    if path in statics then statics[path] else map[]
  }

  function Resolve<T>(r: Routes<T>, accepts: Accepts, path: string): Option<Found<T>> {
    var handlers := GetStatic(r.statics, NormalizePath(path));
    if handlers != map[] then Some(Found(handlers, map[])) else Match(accepts, r.root, SplitPath(path), map[])
  }

  // -- one registration -----------------------------------------------------------------------

  lemma {:induction false} SameRoutesSameAnswer<T>(accepts: Accepts, a: Tree<T>, b: Tree<T>, segments: seq<string>)
    requires Unique(a) && Unique(b)
    requires forall q :: HandlersAt(a, q) == HandlersAt(b, q)
    requires forall p, q :: Before(a, p, q) ==> Before(b, p, q)
    ensures Match(accepts, a, segments, map[]) == Match(accepts, b, segments, map[])
  {
    hide Match, HandlersAt, Before, Unique, MatchPattern;
    SearchFindsTheChosen(accepts, a, segments);
    SearchFindsTheChosen(accepts, b, segments);
    if Match(accepts, a, segments, map[]).Some? && Match(accepts, b, segments, map[]).Some? {
      var p :| IsChosen(accepts, a, p, segments) &&
               Match(accepts, a, segments, map[]).value == Found(HandlersAt(a, p), MatchPattern(accepts, p, segments, map[]).value);
      var q :| IsChosen(accepts, b, q, segments) &&
               Match(accepts, b, segments, map[]).value == Found(HandlersAt(b, q), MatchPattern(accepts, q, segments, map[]).value);
      if p != q {
        assert Before(b, p, q) && Before(b, q, p);
        BeforeIsAsymmetric(b, p, q);
      }
    }
  }

  lemma {:induction false} BeforeIsAsymmetric<T>(node: Tree<T>, p: Pattern, q: Pattern)
    requires Before(node, p, q)
    ensures !Before(node, q, p)
    decreases |p|
  {
    if p[0] == q[0] && ChildOf(node, p[0]).Some? && Before(ChildOf(node, p[0]).value, p[1..], q[1..]) {
      BeforeIsAsymmetric(ChildOf(node, p[0]).value, p[1..], q[1..]);
    }
  }

  /** A refused registration changes no lookup. */
  lemma RefusedAddChangesNoLookup<T>(r: Routes<T>, accepts: Accepts, verb: string, path: string, value: T, lookup: string)
    requires Unique(r.root) && Add(r, verb, path, value).refusal.Some?
    ensures Resolve(Add(r, verb, path, value).next, accepts, lookup) == Resolve(r, accepts, lookup)
  {
    var w, d := WalkOf(SplitPath(NormalizePath(path))), Add(r, verb, path, value).next;
    if IsDynamic(NormalizePath(path)) {
      WalksAreWellFormed(SplitPath(NormalizePath(path)));
      hide WalkOf, Insert, Match, WellFormed, HandlersAt, Before, Unique, Effective;
      var put := if w.refusal.Some? then None else Some(Put(verb, value));
      assert d.root == Insert(r.root, w.parts, put);
      InsertKeepsUnique(r.root, w.parts, put);
      forall q ensures HandlersAt(r.root, q) == HandlersAt(d.root, q) { InsertAt(r.root, w.parts, put, q); }
      forall p, q | Before(r.root, p, q) ensures Before(d.root, p, q) { PreferenceIsStable(r.root, w.parts, put, p, q); }
      SameRoutesSameAnswer(accepts, r.root, d.root, SplitPath(lookup));
    }
  }

  lemma {:induction false} SplitIgnoresSlash(path: string, current: string)
    ensures SplitFrom(path + "/", current) == SplitFrom(path, current)
    decreases |path|
  {
    if path == "" {
      assert (path + "/")[1..] == "";
    } else {
      assert (path + "/")[1..] == path[1..] + "/";
      SplitIgnoresSlash(path[1..], if path[0] == '/' then "" else current + [path[0]]);
    }
  }

  /** `/a` and `/a/` are one path. */
  lemma TrailingSlashIsIgnored<T>(r: Routes<T>, accepts: Accepts, path: string)
    ensures NormalizePath(path + "/") == NormalizePath(path)
    ensures Resolve(r, accepts, path + "/") == Resolve(r, accepts, path)
  {
    SplitIgnoresSlash(path, "");
    NormalizeIgnoresSlash(path);
    hide NormalizePath, Match;
  }

  lemma NormalizeIgnoresSlash(path: string)
    ensures NormalizePath(path + "/") == NormalizePath(path)
  {
    if path == "" {
      StripIgnoresSlash("");
      assert path + "/" == "" + "/" == "/";
      hide StripSlashes;
    } else {
      var rooted := if path[0] == '/' then path else "/" + path;
      StripIgnoresSlash(rooted);
      assert (path + "/")[0] == path[0];
      assert "/" + (path + "/") == "/" + path + "/";
      hide StripSlashes;
    }
  }

  lemma StripIgnoresSlash(path: string)
    ensures StripSlashes(path + "/") == StripSlashes(path)
    ensures path == "" ==> StripSlashes(path) == ""
  {
    assert (path + "/")[..|path|] == path;
  }

  // -- any number of registrations --------------------------------------------------------------

  datatype Call<T> = Call(verb: string, path: string, value: T)

  function Built<T>(calls: seq<Call<T>>): Routes<T> {
    if calls == [] then Routes(map[], Leaf())
    else
      var last := calls[|calls| - 1];
      Add(Built(calls[..|calls| - 1]), last.verb, last.path, last.value).next
  }

  /** The reference: a flat table of what was declared, without a tree. */
  datatype Key = Static(path: string) | Dynamic(pattern: Pattern)

  function KeyOf(path: string): Option<Key> {
    var path := NormalizePath(path);
    if !IsDynamic(path) then Some(Static(path))
    else if WalkOf(SplitPath(path)).refusal.None? then Some(Dynamic(WalkOf(SplitPath(path)).parts))
    else None
  }

  type Register<T> = map<Key, map<string, T>>

  function At<T>(table: Register<T>, key: Key): map<string, T> { if key in table then table[key] else map[] }

  function Registered<T>(calls: seq<Call<T>>): Register<T> {
    if calls == [] then map[]
    else
      var last, table := calls[|calls| - 1], Registered(calls[..|calls| - 1]);
      var key := KeyOf(last.path);
      if key.None? || last.verb in At(table, key.value) then table
      else table[key.value := At(table, key.value)[last.verb := last.value]]
  }

  /** The parts that a call walks, whether or not it is refused. */
  function PartsOf(path: string): Pattern {
    var path := NormalizePath(path);
    if IsDynamic(path) then WalkOf(SplitPath(path)).parts else []
  }

  /** At one position, one converter for a name and one name for the rest. */
  ghost predicate Coherent<T>(calls: seq<Call<T>>) {
    forall i, j :: 0 <= i < |calls| && 0 <= j < |calls| ==> Agree(PartsOf(calls[i].path), PartsOf(calls[j].path))
  }

  ghost predicate Mirrors<T>(r: Routes<T>, table: Register<T>) {
    && Unique(r.root)
    && (forall q :: HandlersAt(r.root, q) == At(table, Dynamic(q)))
    && (forall path :: GetStatic(r.statics, path) == At(table, Static(path)))
  }

  ghost predicate WalkedBy<T>(calls: seq<Call<T>>, p: Pattern) {
    p == [] || exists i :: 0 <= i < |calls| && p <= PartsOf(calls[i].path)
  }

  /** Every path of the tree was walked by some call. */
  ghost predicate ClaimedByCalls<T>(node: Tree<T>, calls: seq<Call<T>>) {
    forall p :: Claimed(node, p) ==> WalkedBy(calls, p)
  }

  lemma {:induction false} PrefixAgrees(p: Pattern, longer: Pattern, q: Pattern)
    requires p <= longer && Agree(longer, q)
    ensures Agree(p, q)
    decreases |p|
  {
    if p != [] && q != [] && p[0] == q[0] {
      assert p[1..] <= longer[1..];
      PrefixAgrees(p[1..], longer[1..], q[1..]);
    }
  }

  lemma CallIsDeclared<T>(node: Tree<T>, calls: seq<Call<T>>, i: nat)
    requires Coherent(calls) && i < |calls| && ClaimedByCalls(node, calls[..i])
    ensures WellFormed(PartsOf(calls[i].path))
    ensures Effective(node, PartsOf(calls[i].path)) == PartsOf(calls[i].path)
  {
    var parts := PartsOf(calls[i].path);
    WalksAreWellFormed(SplitPath(NormalizePath(calls[i].path)));
    hide PartsOf, Claimed, Agree, WellFormed, Effective;
    forall p | Claimed(node, p) ensures Agree(p, parts) {
      if p != [] {
        var j :| 0 <= j < i && p <= PartsOf(calls[..i][j].path);
        PrefixAgrees(p, PartsOf(calls[j].path), parts);
      } else {
        NothingAgrees(parts);
      }
    }
    DeclaredIff(node, parts);
  }

  lemma NothingAgrees(q: Pattern)
    ensures Agree([], q)
  {
  }

  lemma WalkedByMore<T>(calls: seq<Call<T>>, p: Pattern)
    requires calls != [] && (WalkedBy(calls[..|calls| - 1], p) || p <= PartsOf(calls[|calls| - 1].path))
    ensures WalkedBy(calls, p)
  {
    hide PartsOf;
    var front := calls[..|calls| - 1];
    if p != [] && WalkedBy(front, p) {
      var i :| 0 <= i < |front| && p <= PartsOf(front[i].path);
      assert calls[i] == front[i];
    }
  }

  lemma EmptyMirrors<T>()
    ensures Mirrors<T>(Routes(map[], Leaf()), map[]) && ClaimedByCalls<T>(Leaf(), [])
  {
    forall q ensures HandlersAt(Leaf<T>(), q) == map[] { LeafHoldsNothing<T>(q); }
    forall p | Claimed(Leaf<T>(), p) ensures WalkedBy<T>([], p) { LeafIsUnclaimed<T>(p); }
  }

  /** One more call, against the table and against the walked paths. */
  lemma CallKeepsMirrors<T>(r: Routes<T>, table: Register<T>, call: Call<T>)
    requires Mirrors(r, table)
    requires WellFormed(PartsOf(call.path)) && Effective(r.root, PartsOf(call.path)) == PartsOf(call.path)
    ensures var a := Add(r, call.verb, call.path, call.value);
            var key := KeyOf(call.path);
            && (a.refusal.None? <==> key.Some? && call.verb !in At(table, key.value))
            && Mirrors(a.next, if a.refusal.Some? then table
                               else table[key.value := At(table, key.value)[call.verb := call.value]])
  {
    var path := NormalizePath(call.path);
    var w := WalkOf(SplitPath(path));
    var next := Add(r, call.verb, call.path, call.value).next;
    hide WalkOf, Insert, Effective, HandlersAt, Unique, WellFormed;
    if IsDynamic(path) {
      var put := if w.refusal.Some? then None else Some(Put(call.verb, call.value));
      assert next.root == Insert(r.root, w.parts, put);
      InsertKeepsUnique(r.root, w.parts, put);
      forall q
        ensures HandlersAt(next.root, q) == if q == w.parts then PutIn(HandlersAt(r.root, q), put) else HandlersAt(r.root, q)
      {
        InsertAt(r.root, w.parts, put, q);
      }
    }
  }

  lemma CallKeepsClaims<T>(r: Routes<T>, calls: seq<Call<T>>)
    requires calls != [] && ClaimedByCalls(r.root, calls[..|calls| - 1])
    requires var parts := PartsOf(calls[|calls| - 1].path); WellFormed(parts) && Effective(r.root, parts) == parts
    ensures var c := calls[|calls| - 1]; ClaimedByCalls(Add(r, c.verb, c.path, c.value).next.root, calls)
  {
    var c := calls[|calls| - 1];
    var parts, next := PartsOf(c.path), Add(r, c.verb, c.path, c.value).next;
    hide WalkOf, Insert, Effective, HandlersAt, WellFormed, Claimed;
    forall p | Claimed(next.root, p) ensures WalkedBy(calls, p) {
      if IsDynamic(NormalizePath(c.path)) {
        var w := WalkOf(SplitPath(NormalizePath(c.path)));
        var put := if w.refusal.Some? then None else Some(Put(c.verb, c.value));
        assert next.root == Insert(r.root, parts, put);
        InsertClaims(r.root, parts, put, p);
      }
      hide PartsOf, WalkedBy;
      WalkedByMore(calls, p);
    }
  }

  lemma {:induction false} BuiltMirrors<T>(calls: seq<Call<T>>)
    requires Coherent(calls)
    ensures Mirrors(Built(calls), Registered(calls)) && ClaimedByCalls(Built(calls).root, calls)
    decreases |calls|
  {
    hide Mirrors, ClaimedByCalls, Add, WellFormed, Effective;
    if calls == [] {
      EmptyMirrors<T>();
    } else {
      var front, last := calls[..|calls| - 1], calls[|calls| - 1];
      BuiltMirrors(front);
      CallIsDeclared(Built(front).root, calls, |front|);
      CallKeepsMirrors(Built(front), Registered(front), last);
      CallKeepsClaims(Built(front), calls);
    }
  }

  /** Which calls are accepted: those of good form whose method is still free. */
  lemma AcceptedIff<T>(calls: seq<Call<T>>, call: Call<T>)
    requires Coherent(calls + [call])
    ensures Add(Built(calls), call.verb, call.path, call.value).refusal.None? <==>
            KeyOf(call.path).Some? && call.verb !in At(Registered(calls), KeyOf(call.path).value)
  {
    hide Mirrors, Add, KeyOf, Built, Registered, WellFormed, Effective, ClaimedByCalls;
    var all := calls + [call];
    forall i, j | 0 <= i < |calls| && 0 <= j < |calls| ensures Agree(PartsOf(calls[i].path), PartsOf(calls[j].path)) {
      assert all[i] == calls[i] && all[j] == calls[j];
    }
    BuiltMirrors(calls);
    assert all[..|calls|] == calls;
    CallIsDeclared(Built(calls).root, all, |calls|);
    CallKeepsMirrors(Built(calls), Registered(calls), call);
  }

  // -- without coherence ---------------------------------------------------------------------------

  lemma IntSegment()
    ensures ReadSegment("{id:int}") == Parameter("id", "int")
  {
    var inner := "{id:int}"[1..7];
    assert inner == "id:int";
    ColonAt(inner);
    TwoNames(inner);
    hide IndexOfChar, IsName, IsConverterName;
    assert inner[..2] == "id" && inner[3..] == "int";
  }

  lemma TwoNames(s: string)
    requires |s| > 2 && s[2] == ':'
    ensures !IsName(s) && IsName("id") && IsConverterName("int")
  {
    assert !NameChar(s[2]);
  }

  lemma OtherSegments()
    ensures ReadSegment("{id}") == Parameter("id", "str")
    ensures ReadSegment("{") == NotASegment
  {
    assert "{id}"[1..3] == "id";
  }

  lemma ColonAt(s: string)
    requires |s| > 2 && s[0] != ':' && s[1] != ':' && s[2] == ':'
    ensures IndexOfChar(s, ':') == 2
  {
    assert s[1..][1..][0] == ':';
    assert IndexOfChar(s[1..][1..], ':') == 0;
    assert IndexOfChar(s[1..], ':') == 1;
  }

  lemma WalksOfThem()
    ensures WalkOf(["{id:int}", "{"]) == Walk([Dyn("id", IntConv)], Some(Malformed))
    ensures WalkOf(["{id}"]) == Walk([Dyn("id", StrConv)], None)
  {
    IntSegment();
    OtherSegments();
    hide ReadSegment;
    assert ["{id:int}", "{"][1..] == ["{"] && ["{id}"][1..] == [];
    assert WalkOf(["{"]) == Walk([], Some(Malformed));
    assert WalkOf([]) == Walk([], None);
  }

  // -- the path of some segments ---------------------------------------------------------------

  function PathOf(segments: seq<string>): string {
    if segments == [] then "" else "/" + segments[0] + PathOf(segments[1..])
  }

  predicate IsSegment(s: string) { s != "" && '/' !in s }

  lemma {:induction false} SplitReads(text: string, current: string, rest: string)
    requires '/' !in text
    ensures SplitFrom(text + rest, current) == SplitFrom(rest, current + text)
    decreases |text|
  {
    if text == "" {
      assert text + rest == rest && current + text == current;
    } else {
      assert (text + rest)[1..] == text[1..] + rest;
      SplitReads(text[1..], current + [text[0]], rest);
      assert current + [text[0]] + text[1..] == current + text;
    }
  }

  /** Splitting a path gives its segments back. */
  lemma {:induction false} SplitOfPath(segments: seq<string>, current: string)
    requires forall i :: 0 <= i < |segments| ==> IsSegment(segments[i])
    ensures SplitFrom(PathOf(segments), current) == (if current == "" then [] else [current]) + segments
    decreases |segments|
  {
    if segments != [] {
      var rest := PathOf(segments[1..]);
      var path := PathOf(segments);
      assert path[1..] == segments[0] + rest;
      SplitReads(segments[0], "", rest);
      assert "" + segments[0] == segments[0];
      SplitOfPath(segments[1..], segments[0]);
      assert [segments[0]] + segments[1..] == segments;
    }
  }

  lemma {:induction false} LastIsNoSlash(segments: seq<string>)
    requires segments != [] && forall i :: 0 <= i < |segments| ==> IsSegment(segments[i])
    ensures var path := PathOf(segments); path != "" && path[0] == '/' && path[|path| - 1] != '/'
    decreases |segments|
  {
    if |segments| == 1 {
      assert PathOf(segments) == "/" + segments[0];
      assert segments[0][|segments[0]| - 1] in segments[0];
    } else {
      LastIsNoSlash(segments[1..]);
    }
  }

  lemma PathIsNormal(segments: seq<string>)
    requires segments != [] && forall i :: 0 <= i < |segments| ==> IsSegment(segments[i])
    ensures NormalizePath(PathOf(segments)) == PathOf(segments) && SplitPath(PathOf(segments)) == segments
  {
    hide PathOf, SplitFrom;
    LastIsNoSlash(segments);
    SplitOfPath(segments, "");
    assert [] + segments == segments;
  }

  lemma ThesePaths(text: string)
    requires IsSegment(text)
    ensures PathOf(["{id:int}", "{"]) == "/{id:int}/{" && PathOf(["{id}"]) == "/{id}" && PathOf([text]) == "/" + text
  {
    assert ["{id:int}", "{"][1..] == ["{"] && ["{"][1..] == [] && ["{id}"][1..] == [] && [text][1..] == [];
    assert PathOf([]) == "" && PathOf(["{"]) == "/{";
  }

  function Empty<T>(): Routes<T> { Routes(map[], Leaf()) }

  lemma DynamicAdd<T>(r: Routes<T>, verb: string, segments: seq<string>, value: T)
    requires segments != [] && (forall i :: 0 <= i < |segments| ==> IsSegment(segments[i])) && '{' in PathOf(segments)
    ensures var w, a := WalkOf(segments), Add(r, verb, PathOf(segments), value);
            && a.next == r.(root := Insert(r.root, w.parts, if w.refusal.Some? then None else Some(Put(verb, value))))
            && (w.refusal.Some? ==> a.refusal == w.refusal)
            && (w.refusal.None? ==> (a.refusal.None? <==> verb !in HandlersAt(r.root, Effective(r.root, w.parts))))
  {
    PathIsNormal(segments);
    hide WalkOf, NormalizePath, SplitPath, PathOf, Insert;
  }

  lemma OneDynamicRoute<T>(accepts: Accepts, converter: Converter, value: T, text: string)
    ensures var edge := DynEdge("id", converter, Tree([], [], None, map["GET" := value]));
            var node := Leaf<T>().(dynamic := [edge]);
            Match(accepts, node, [text], map[]).Some? <==> accepts(converter, text)
  {
    var child: Tree<T> := Tree([], [], None, map["GET" := value]);
    var edge := DynEdge("id", converter, child);
    var params: Params := map[]["id" := Converted(converter, text)];
    assert [text][1..] == [] && [edge][1..] == [];
    assert child.handlers != map[] by { assert "GET" in child.handlers; }
    assert Match(accepts, child, [], params) == Some(Found(child.handlers, params));
    assert MatchDyn<T>(accepts, [], [text], map[]) == None;
    assert MatchDyn(accepts, [edge], [text], map[]).Some? <==> accepts(converter, text);
  }

  lemma ResolvesInTree<T>(r: Routes<T>, accepts: Accepts, text: string)
    requires IsSegment(text) && r.statics == map[]
    ensures Resolve(r, accepts, "/" + text) == Match(accepts, r.root, [text], map[])
  {
    ThesePaths(text);
    PathIsNormal([text]);
    hide NormalizePath, SplitPath, PathOf, Match;
  }

  /** Registering `{id}` behind a walk that left an edge for the name. */
  lemma InsertId<T>(converter: Converter, value: T)
    ensures var edge := DynEdge("id", converter, Tree([], [], None, map["GET" := value]));
            Insert(Leaf<T>(), [Dyn("id", converter)], Some(Put("GET", value))) == Leaf<T>().(dynamic := [edge])
    ensures var walked := Insert(Leaf<T>(), [Dyn("id", IntConv)], None);
            var edge := DynEdge("id", IntConv, Tree([], [], None, map["GET" := value]));
            && Insert(walked, [Dyn("id", StrConv)], Some(Put("GET", value))) == Leaf<T>().(dynamic := [edge])
            && Effective(walked, [Dyn("id", StrConv)]) == [Dyn("id", IntConv)]
            && HandlersAt(walked, [Dyn("id", IntConv)]) == map[]
  {
    var a, b := [Dyn("id", IntConv)], [Dyn("id", StrConv)];
    assert a[1..] == [] && b[1..] == [] && [Dyn("id", converter)][1..] == [];
    var leaf := Leaf<T>();
    assert Insert(leaf, [], None) == leaf;
    assert Insert(leaf, [], Some(Put("GET", value))) == leaf.(handlers := map["GET" := value]);
    assert Insert(leaf, a, None).dynamic == [DynEdge("id", IntConv, leaf)];
    assert Effective(leaf, []) == [];
  }

  lemma BehindARefusedAdd<T>(accepts: Accepts, value: T, text: string)
    requires IsSegment(text)
    ensures var refused := Add(Empty<T>(), "GET", "/{id:int}/{", value);
            var added := Add(refused.next, "GET", "/{id}", value);
            && refused.refusal == Some(Malformed) && added.refusal.None?
            && (Resolve(added.next, accepts, "/" + text).Some? <==> accepts(IntConv, text))
  {
    hide WalkOf, Insert, Match, PathOf, NormalizePath, SplitPath, Effective, HandlersAt, Add, Resolve;
    ThesePaths(text);
    WalksOfThem();
    var refused := Add(Empty<T>(), "GET", "/{id:int}/{", value).next;
    DynamicAdd(Empty<T>(), "GET", ["{id:int}", "{"], value);
    DynamicAdd(refused, "GET", ["{id}"], value);
    InsertId(IntConv, value);
    OneDynamicRoute(accepts, IntConv, value, text);
    ResolvesInTree(Add(refused, "GET", "/{id}", value).next, accepts, text);
  }

  lemma OnItsOwn<T>(accepts: Accepts, value: T, text: string)
    requires IsSegment(text)
    ensures var alone := Add(Empty<T>(), "GET", "/{id}", value);
            alone.refusal.None? && (Resolve(alone.next, accepts, "/" + text).Some? <==> accepts(StrConv, text))
  {
    hide WalkOf, Insert, Match, PathOf, NormalizePath, SplitPath, Effective, HandlersAt, Add, Resolve;
    ThesePaths(text);
    WalksOfThem();
    DynamicAdd(Empty<T>(), "GET", ["{id}"], value);
    InsertId(StrConv, value);
    LeafHoldsNothing<T>([Dyn("id", StrConv)]);
    EffectiveOfLeaf<T>([Dyn("id", StrConv)]);
    OneDynamicRoute(accepts, StrConv, value, text);
    ResolvesInTree(Add(Empty<T>(), "GET", "/{id}", value).next, accepts, text);
  }

  /** A name keeps the converter of the first call that walked it, even a refused one:
      behind a refused `/{id:int}/{`, the route `/{id}` is accepted and takes integers
      only, where on its own it takes any text. */
  lemma RefusedAddClaimsAConverter<T>(accepts: Accepts, value: T, text: string)
    requires IsSegment(text)
    ensures var refused := Add(Empty<T>(), "GET", "/{id:int}/{", value);
            var added := Add(refused.next, "GET", "/{id}", value);
            && refused.refusal == Some(Malformed) && added.refusal.None?
            && (Resolve(added.next, accepts, "/" + text).Some? <==> accepts(IntConv, text))
    ensures var alone := Add(Empty<T>(), "GET", "/{id}", value);
            alone.refusal.None? && (Resolve(alone.next, accepts, "/" + text).Some? <==> accepts(StrConv, text))
  {
    hide *;
    BehindARefusedAdd(accepts, value, text);
    OnItsOwn(accepts, value, text);
  }
}
