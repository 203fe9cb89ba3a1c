/** The router against a linear scan of the registered routes: which one is found, what
    a refused registration leaves behind, and when a route keeps its declared pattern. */
module RoutingResults {
  import opened Bytes
  import opened Routing
  import opened RoutingTable

  // -- the order of preference -----------------------------------------------------------

  function Kind(part: Part): nat {
    match part
    case Lit(_) => 0
    case Dyn(_, _) => 1
    case Rest(_) => 2
  }

  function DynRank<T>(edges: seq<DynEdge<T>>, name: string): (r: nat)
    ensures r <= |edges|
  {
    if edges == [] || edges[0].name == name then 0 else 1 + DynRank(edges[1..], name)
  }

  /** At the first part where they differ: a literal before a parameter, a parameter
      whose name was claimed first before one claimed later, the catch-all last. */
  predicate Before<T>(node: Tree<T>, p: Pattern, q: Pattern)
    decreases |p|
  {
    p != [] && q != [] &&
    (|| Kind(p[0]) < Kind(q[0])
     || (p[0].Dyn? && q[0].Dyn? && DynRank(node.dynamic, p[0].name) < DynRank(node.dynamic, q[0].name))
     || (p[0] == q[0] && ChildOf(node, p[0]).Some? && Before(ChildOf(node, p[0]).value, p[1..], q[1..])))
  }

  ghost predicate Sorted<T>(node: Tree<T>, entries: seq<Entry<T>>) {
    forall i, j :: 0 <= i < j < |entries| ==> !Before(node, entries[j].pattern, entries[i].pattern)
  }

  /** No entry of `b` comes before one of `a`. */
  ghost predicate InOrder<T>(node: Tree<T>, a: seq<Entry<T>>, b: seq<Entry<T>>) {
    forall x, y :: x in a && y in b ==> !Before(node, y.pattern, x.pattern)
  }

  lemma SortedConcat<T>(node: Tree<T>, a: seq<Entry<T>>, b: seq<Entry<T>>)
    requires Sorted(node, a) && Sorted(node, b)
    requires InOrder(node, a, b)
    ensures Sorted(node, a + b)
  {
    hide Before;
    var all := a + b;
    forall i, j | 0 <= i < j < |all| ensures !Before(node, all[j].pattern, all[i].pattern) {
      if j < |a| {
        assert all[i] == a[i] && all[j] == a[j];
      } else if i < |a| {
        assert all[i] == a[i] && all[j] == b[j - |a|];
        assert a[i] in a && b[j - |a|] in b;
      } else {
        assert all[i] == b[i - |a|] && all[j] == b[j - |a|];
      }
    }
  }

  /** Every pattern begins with a part of this kind. */
  ghost predicate AllOfKind<T>(entries: seq<Entry<T>>, kind: nat) {
    forall x :: x in entries ==> x.pattern != [] && Kind(x.pattern[0]) == kind
  }

  lemma PrefixedSorted<T>(node: Tree<T>, part: Part, child: Tree<T>)
    requires ChildOf(node, part) == Some(child) && Sorted(child, Entries(child))
    ensures Sorted(node, Prefixed(part, Entries(child))) && AllOfKind(Prefixed(part, Entries(child)), Kind(part))
  {
    var es := Entries(child);
    var r := Prefixed(part, es);
    forall i, j | 0 <= i < j < |r| ensures !Before(node, r[j].pattern, r[i].pattern) {
      assert r[i].pattern[1..] == es[i].pattern && r[j].pattern[1..] == es[j].pattern;
      assert !Before(child, es[j].pattern, es[i].pattern);
    }
  }

  lemma {:induction false} LitIsFound<T>(edges: seq<LitEdge<T>>, i: nat)
    requires UniqueLits(edges) && i < |edges|
    ensures FindLit(edges, edges[i].text) == Some(edges[i].child) && Unique(edges[i].child)
    decreases |edges|
  {
    if i > 0 { LitIsFound(edges[1..], i - 1); }
  }

  lemma {:induction false} DynIsFound<T>(edges: seq<DynEdge<T>>, i: nat)
    requires UniqueDyns(edges) && i < |edges|
    ensures FindDyn(edges, edges[i].name) == Some(edges[i]) && DynRank(edges, edges[i].name) == i && Unique(edges[i].child)
    decreases |edges|
  {
    if i > 0 { DynIsFound(edges[1..], i - 1); }
  }

  ghost predicate BeginAmong<T>(entries: seq<Entry<T>>, parts: seq<Part>) {
    forall x :: x in entries ==> x.pattern != [] && x.pattern[0] in parts
  }

  function LitParts<T>(edges: seq<LitEdge<T>>): (r: seq<Part>)
    ensures |r| == |edges| && forall i :: 0 <= i < |r| ==> r[i] == Lit(edges[i].text)
  {
    if edges == [] then [] else [Lit(edges[0].text)] + LitParts(edges[1..])
  }

  function DynParts<T>(edges: seq<DynEdge<T>>): (r: seq<Part>)
    ensures |r| == |edges| && forall i :: 0 <= i < |r| ==> r[i] == Dyn(edges[i].name, edges[i].converter)
  {
    if edges == [] then [] else [Dyn(edges[0].name, edges[0].converter)] + DynParts(edges[1..])
  }

  lemma LaterLit<T>(node: Tree<T>, i: nat, p: Pattern, q: Pattern)
    requires Unique(node) && i < |node.literal| && p != [] && p[0] == Lit(node.literal[i].text)
    requires q != [] && q[0] in LitParts(node.literal[i + 1..])
    ensures !Before(node, q, p)
  {
    var later := node.literal[i + 1..];
    var j :| 0 <= j < |later| && q[0] == LitParts(later)[j];
    DifferentLits(node.literal, i, i + 1 + j);
  }

  lemma LaterDyn<T>(node: Tree<T>, i: nat, p: Pattern, q: Pattern)
    requires Unique(node) && i < |node.dynamic| && p != [] && p[0] == Dyn(node.dynamic[i].name, node.dynamic[i].converter)
    requires q != [] && q[0] in DynParts(node.dynamic[i + 1..])
    ensures !Before(node, q, p)
  {
    var later := node.dynamic[i + 1..];
    var j :| 0 <= j < |later| && q[0] == DynParts(later)[j];
    DynIsFound(node.dynamic, i);
    DynIsFound(node.dynamic, i + 1 + j);
  }

  lemma {:induction false} LitEntriesSorted<T>(node: Tree<T>, from: nat)
    requires Unique(node) && from <= |node.literal|
    ensures var es := LitEntries(node.literal[from..]);
            Sorted(node, es) && AllOfKind(es, 0) && BeginAmong(es, LitParts(node.literal[from..]))
    decreases node, |node.literal| - from
  {
    if from < |node.literal| {
      var edges, e := node.literal[from..], node.literal[from];
      LitIsFound(node.literal, from);
      EntriesSorted(e.child);
      PrefixedSorted(node, Lit(e.text), e.child);
      assert edges[1..] == node.literal[from + 1..];
      LitEntriesSorted(node, from + 1);
      var a, b := Prefixed(Lit(e.text), Entries(e.child)), LitEntries(edges[1..]);
      forall x, y | x in a && y in b ensures !Before(node, y.pattern, x.pattern) {
        LaterLit(node, from, x.pattern, y.pattern);
      }
      SortedConcat(node, a, b);
    }
  }

  lemma {:induction false} DifferentLits<T>(edges: seq<LitEdge<T>>, i: nat, j: nat)
    requires UniqueLits(edges) && i < j < |edges|
    ensures edges[i].text != edges[j].text
    decreases |edges|
  {
    if i > 0 {
      DifferentLits(edges[1..], i - 1, j - 1);
    }
  }

  lemma {:induction false} DynEntriesSorted<T>(node: Tree<T>, from: nat)
    requires Unique(node) && from <= |node.dynamic|
    ensures var es := DynEntries(node.dynamic[from..]);
            Sorted(node, es) && AllOfKind(es, 1) && BeginAmong(es, DynParts(node.dynamic[from..]))
    decreases node, |node.dynamic| - from
  {
    if from < |node.dynamic| {
      var edges, e := node.dynamic[from..], node.dynamic[from];
      var part := Dyn(e.name, e.converter);
      DynIsFound(node.dynamic, from);
      EntriesSorted(e.child);
      PrefixedSorted(node, part, e.child);
      assert edges[1..] == node.dynamic[from + 1..];
      DynEntriesSorted(node, from + 1);
      var a, b := Prefixed(part, Entries(e.child)), DynEntries(edges[1..]);
      hide Before;
      forall x, y | x in a && y in b ensures !Before(node, y.pattern, x.pattern) {
        LaterDyn(node, from, x.pattern, y.pattern);
      }
      SortedConcat(node, a, b);
    }
  }

  lemma KindsInOrder<T>(node: Tree<T>, own: seq<Entry<T>>, lits: seq<Entry<T>>, dyns: seq<Entry<T>>, rest: seq<Entry<T>>)
    requires |own| <= 1 && forall x :: x in own ==> x.pattern == []
    requires AllOfKind(lits, 0) && AllOfKind(dyns, 1) && AllOfKind(rest, 2) && |rest| <= 1
    ensures InOrder(node, own, lits) && InOrder(node, own + lits, dyns) && InOrder(node, own + lits + dyns, rest)
    ensures Sorted(node, own) && Sorted(node, rest)
  {
  }

  /** The scanned list is in order of preference. */
  lemma {:induction false} EntriesSorted<T>(node: Tree<T>)
    requires Unique(node)
    ensures Sorted(node, Entries(node))
    decreases node, |node.literal| + |node.dynamic| + 1
  {
    var own := if node.handlers != map[] then [Entry([], node.handlers)] else [];
    var lits, dyns, rest := LitEntries(node.literal), DynEntries(node.dynamic), RestEntries(node.catchAll);
    assert node.literal[0..] == node.literal && node.dynamic[0..] == node.dynamic;
    LitEntriesSorted(node, 0);
    DynEntriesSorted(node, 0);
    KindsInOrder(node, own, lits, dyns, rest);
    hide Before, Entries, LitEntries, DynEntries, Unique;
    SortedConcat(node, own, lits);
    SortedConcat(node, own + lits, dyns);
    SortedConcat(node, own + lits + dyns, rest);
  }

  // -- the route that is found ------------------------------------------------------------

  predicate Takes(accepts: Accepts, q: Pattern, segments: seq<string>) {
    MatchPattern(accepts, q, segments, map[]).Some?
  }

  /** What is captured does not decide whether a pattern matches. */
  lemma {:induction false} ParamsDoNotMatter(accepts: Accepts, q: Pattern, segments: seq<string>, a: Params, b: Params)
    ensures MatchPattern(accepts, q, segments, a).Some? <==> MatchPattern(accepts, q, segments, b).Some?
    decreases |q|
  {
    if q != [] && segments != [] {
      match q[0]
      case Lit(_) => ParamsDoNotMatter(accepts, q[1..], segments[1..], a, b);
      case Dyn(name, c) =>
        var v := Converted(c, segments[0]);
        ParamsDoNotMatter(accepts, q[1..], segments[1..], a[name := v], b[name := v]);
      case Rest(_) =>
    }
  }

  lemma {:induction false} DifferentRanks<T>(edges: seq<DynEdge<T>>, a: string, b: string)
    requires FindDyn(edges, a).Some? && FindDyn(edges, b).Some? && a != b
    ensures DynRank(edges, a) != DynRank(edges, b)
    decreases |edges|
  {
    if edges[0].name != a && edges[0].name != b { DifferentRanks(edges[1..], a, b); }
  }

  /** Of two registered patterns that take the same path, one comes before the other. */
  lemma {:induction false} PreferenceIsTotal<T>(accepts: Accepts, node: Tree<T>, p: Pattern, q: Pattern, segments: seq<string>)
    requires HandlersAt(node, p) != map[] && HandlersAt(node, q) != map[] && p != q
    requires Takes(accepts, p, segments) && Takes(accepts, q, segments)
    ensures Before(node, p, q) || Before(node, q, p)
    decreases |p|
  {
    assert p != [] && q != [] && segments != [];
    assert p[0].Rest? ==> p == [p[0]];
    assert q[0].Rest? ==> q == [q[0]];
    if p[0] == q[0] && !p[0].Rest? {
      assert p == [p[0]] + p[1..] && q == [q[0]] + q[1..];
      if p[0].Dyn? {
        var params: Params := map[p[0].name := Converted(p[0].converter, segments[0])];
        assert map[][p[0].name := Converted(p[0].converter, segments[0])] == params;
        ParamsDoNotMatter(accepts, p[1..], segments[1..], params, map[]);
        ParamsDoNotMatter(accepts, q[1..], segments[1..], params, map[]);
      }
      PreferenceIsTotal(accepts, ChildOf(node, p[0]).value, p[1..], q[1..], segments[1..]);
    } else if p[0].Dyn? && q[0].Dyn? {
      DifferentRanks(node.dynamic, p[0].name, q[0].name);
    }
  }

  ghost predicate FirstMatch<T>(accepts: Accepts, entries: seq<Entry<T>>, segments: seq<string>, params: Params, i: nat) {
    && i <= |entries|
    && (forall j :: 0 <= j < i ==> MatchPattern(accepts, entries[j].pattern, segments, params).None?)
    && (i < |entries| ==> MatchPattern(accepts, entries[i].pattern, segments, params).Some?)
  }

  lemma {:induction false} ScanIsFirst<T>(accepts: Accepts, entries: seq<Entry<T>>, segments: seq<string>, params: Params) returns (i: nat)
    ensures FirstMatch(accepts, entries, segments, params, i)
    ensures Scan(accepts, entries, segments, params) ==
            if i == |entries| then None
            else Some(Found(entries[i].handlers, MatchPattern(accepts, entries[i].pattern, segments, params).value))
    decreases |entries|
  {
    i := 0;
    if entries != [] && MatchPattern(accepts, entries[0].pattern, segments, params).None? {
      var j := ScanIsFirst(accepts, entries[1..], segments, params);
      i := j + 1;
    }
  }

  /** `q` is registered, takes the path, and comes before every other pattern that does. */
  ghost predicate IsChosen<T>(accepts: Accepts, node: Tree<T>, q: Pattern, segments: seq<string>) {
    && HandlersAt(node, q) != map[] && Takes(accepts, q, segments)
    && forall p :: HandlersAt(node, p) != map[] && Takes(accepts, p, segments) && p != q ==> Before(node, q, p)
  }

  ghost predicate NothingTakes<T>(accepts: Accepts, node: Tree<T>, segments: seq<string>) {
    forall p :: HandlersAt(node, p) != map[] ==> !Takes(accepts, p, segments)
  }

  lemma EntryIsRegistered<T>(node: Tree<T>, i: nat)
    requires Unique(node) && i < |Entries(node)|
    ensures HandlersAt(node, Entries(node)[i].pattern) == Entries(node)[i].handlers != map[]
  {
    var e := Entries(node)[i];
    EntriesAreNotEmpty(node);
    EntriesAreHandlers(node, e.pattern, e.handlers);
    assert e == Entry(e.pattern, e.handlers);
    assert Has(Entries(node), e.pattern, e.handlers);
  }

  ghost predicate NoneEmpty<T>(entries: seq<Entry<T>>) { forall e :: e in entries ==> e.handlers != map[] }

  lemma {:induction false} LitsAreNotEmpty<T>(edges: seq<LitEdge<T>>)
    ensures NoneEmpty(LitEntries(edges))
    decreases edges
  {
    if edges != [] { EntriesAreNotEmpty(edges[0].child); LitsAreNotEmpty(edges[1..]); }
  }

  lemma {:induction false} DynsAreNotEmpty<T>(edges: seq<DynEdge<T>>)
    ensures NoneEmpty(DynEntries(edges))
    decreases edges
  {
    if edges != [] { EntriesAreNotEmpty(edges[0].child); DynsAreNotEmpty(edges[1..]); }
  }

  lemma {:induction false} EntriesAreNotEmpty<T>(node: Tree<T>)
    ensures NoneEmpty(Entries(node))
    decreases node
  {
    LitsAreNotEmpty(node.literal);
    DynsAreNotEmpty(node.dynamic);
  }

  lemma RegisteredIsEntry<T>(node: Tree<T>, p: Pattern) returns (j: nat)
    requires Unique(node) && HandlersAt(node, p) != map[]
    ensures j < |Entries(node)| && Entries(node)[j].pattern == p
  {
    EntriesAreHandlers(node, p, HandlersAt(node, p));
    j :| 0 <= j < |Entries(node)| && Entries(node)[j] == Entry(p, HandlersAt(node, p));
  }

  /** The search finds nothing exactly when no registered pattern takes the path, and
      otherwise the preferred one among those that do. */
  lemma SearchFindsTheChosen<T>(accepts: Accepts, node: Tree<T>, segments: seq<string>)
    requires Unique(node)
    ensures match Match(accepts, node, segments, map[])
            case None => NothingTakes(accepts, node, segments)
            case Some(found) =>
              exists q ::
                && IsChosen(accepts, node, q, segments)
                && found == Found(HandlersAt(node, q), MatchPattern(accepts, q, segments, map[]).value)
  {
    hide Match, Scan, Entries, Before, HandlersAt, Unique, MatchPattern;
    var es := Entries(node);
    TreeIsScan(accepts, node, segments, map[]);
    EntriesSorted(node);
    var i := ScanIsFirst(accepts, es, segments, map[]);
    if i < |es| { EntryIsRegistered(node, i); }
    forall p | HandlersAt(node, p) != map[] && Takes(accepts, p, segments)
      ensures i < |es| && (p != es[i].pattern ==> Before(node, es[i].pattern, p))
    {
      var j := RegisteredIsEntry(node, p);
      assert i <= j;
      if p != es[i].pattern {
        assert i < j;
        PreferenceIsTotal(accepts, node, es[i].pattern, p, segments);
      }
    }
    if i < |es| { assert IsChosen(accepts, node, es[i].pattern, segments); }
  }

  // -- registration order --------------------------------------------------------------------

  lemma {:induction false} RanksStay<T>(edges: seq<DynEdge<T>>, parts: Pattern, put: Option<Put<T>>, name: string)
    requires parts != [] && parts[0].Dyn?
    ensures DynRank(InsertDyn(edges, parts, put), name) ==
            if FindDyn(edges, name).Some? || name == parts[0].name then DynRank(edges, name) else |InsertDyn(edges, parts, put)|
    ensures |InsertDyn(edges, parts, put)| == |edges| + if FindDyn(edges, parts[0].name).Some? then 0 else 1
    ensures FindDyn(edges, name).None? ==> DynRank(edges, name) == |edges|
    decreases |edges|
  {
    if edges != [] { RanksStay(edges[1..], parts, put, name); }
  }

  lemma {:induction false} RankIsBelow<T>(edges: seq<DynEdge<T>>, a: string, b: string)
    requires DynRank(edges, a) < DynRank(edges, b)
    ensures FindDyn(edges, a).Some?
    decreases |edges|
  {
    if edges[0].name != a { RankIsBelow(edges[1..], a, b); }
  }

  /** Once a pattern comes before another, no later registration changes that: names
      keep the order in which they were first walked. */
  lemma {:induction false} PreferenceIsStable<T>(node: Tree<T>, parts: Pattern, put: Option<Put<T>>, p: Pattern, q: Pattern)
    requires Before(node, p, q)
    ensures Before(Insert(node, parts, put), p, q)
    decreases |p|
  {
    if parts != [] && Kind(p[0]) >= Kind(q[0]) {
      match parts[0]
      case Lit(text) =>
        if p[0].Lit? {
          InsertLitFinds(node.literal, parts, put, p[0].text);
          if p[0].text == text { PreferenceIsStable(ChildOf(node, p[0]).value, parts[1..], put, p[1..], q[1..]); }
        }
      case Dyn(name, _) =>
        if p[0].Dyn? {
          InsertDynFinds(node.dynamic, parts, put, p[0].name);
          RanksStay(node.dynamic, parts, put, p[0].name);
          RanksStay(node.dynamic, parts, put, q[0].name);
          if DynRank(node.dynamic, p[0].name) < DynRank(node.dynamic, q[0].name) {
            RankIsBelow(node.dynamic, p[0].name, q[0].name);
          } else if p[0].name == name {
            PreferenceIsStable(ChildOf(node, p[0]).value, parts[1..], put, p[1..], q[1..]);
          }
        }
      case Rest(_) =>
    }
  }

  /** `q` leaves the walk of `p` with a name that has no edge yet. */
  predicate Newcomer<T>(node: Tree<T>, p: Pattern, q: Pattern)
    decreases |p|
  {
    p != [] && q != [] && ChildOf(node, p[0]).Some? &&
    if p[0] == q[0] then Newcomer(ChildOf(node, p[0]).value, p[1..], q[1..])
    else p[0].Dyn? && q[0].Dyn? && FindDyn(node.dynamic, q[0].name).None?
  }

  lemma {:induction false} MissingRank<T>(edges: seq<DynEdge<T>>, name: string)
    ensures FindDyn(edges, name).None? <==> DynRank(edges, name) == |edges|
    decreases |edges|
  {
    if edges != [] { MissingRank(edges[1..], name); }
  }

  /** First come, first served: a name that is already walked comes before one that is
      not, now and (by `PreferenceIsStable`) ever after. */
  lemma {:induction false} NewcomersComeLast<T>(node: Tree<T>, p: Pattern, q: Pattern)
    requires Newcomer(node, p, q)
    ensures Before(node, p, q)
    decreases |p|
  {
    if p[0] == q[0] {
      NewcomersComeLast(ChildOf(node, p[0]).value, p[1..], q[1..]);
    } else {
      MissingRank(node.dynamic, q[0].name);
      MissingRank(node.dynamic, p[0].name);
    }
  }

  // -- claims ------------------------------------------------------------------------------------

  /** The path `p` of parts exists in the tree, by whatever registration. */
  predicate Claimed<T>(node: Tree<T>, p: Pattern)
    decreases |p|
  {
    if p == [] then true
    else if p[0].Rest? then |p| == 1 && node.catchAll.Some? && node.catchAll.value.name == p[0].name
    else ChildOf(node, p[0]).Some? && Claimed(ChildOf(node, p[0]).value, p[1..])
  }

  /** The same name with two converters, or two names for the rest, at one position. */
  predicate Clash(a: Part, b: Part) {
    (a.Dyn? && b.Dyn? && a.name == b.name && a.converter != b.converter) || (a.Rest? && b.Rest? && a.name != b.name)
  }

  predicate Agree(p: Pattern, q: Pattern)
    decreases |p|
  {
    p != [] && q != [] ==> !Clash(p[0], q[0]) && (p[0] == q[0] ==> Agree(p[1..], q[1..]))
  }

  /** A walk ends at its declared pattern if and only if no path of the tree clashes
      with it. */
  lemma {:induction false} DeclaredIff<T>(node: Tree<T>, parts: Pattern)
    requires WellFormed(parts)
    ensures Effective(node, parts) == parts <==> forall p :: Claimed(node, p) ==> Agree(p, parts)
    decreases |parts|
  {
    if forall p :: Claimed(node, p) ==> Agree(p, parts) {
      AgreedIsDeclared(node, parts);
    } else {
      var p :| Claimed(node, p) && !Agree(p, parts);
      ClashIsNotDeclared(node, parts, p);
    }
  }

  lemma {:induction false} AgreedIsDeclared<T>(node: Tree<T>, parts: Pattern)
    requires WellFormed(parts) && forall p :: Claimed(node, p) ==> Agree(p, parts)
    ensures Effective(node, parts) == parts
    decreases |parts|
  {
    if parts != [] {
      match parts[0]
      case Lit(_) => if ChildOf(node, parts[0]).Some? { AgreedBelow(node, parts); }
      case Dyn(name, c) =>
        var e := FindDyn(node.dynamic, name);
        if e.Some? {
          FoundHasName(node.dynamic, name);
          var p := [Dyn(name, e.value.converter)];
          assert p[1..] == [] && Claimed(node, p);
          AgreedBelow(node, parts);
        }
      case Rest(name) =>
        if node.catchAll.Some? { assert Claimed(node, [Rest(node.catchAll.value.name)]); }
    }
  }

  lemma {:induction false} FoundHasName<T>(edges: seq<DynEdge<T>>, name: string)
    ensures FindDyn(edges, name).Some? ==> FindDyn(edges, name).value.name == name
    decreases |edges|
  {
    if edges != [] { FoundHasName(edges[1..], name); }
  }

  lemma {:induction false} AgreedBelow<T>(node: Tree<T>, parts: Pattern)
    requires WellFormed(parts) && parts != [] && forall p :: Claimed(node, p) ==> Agree(p, parts)
    requires ChildOf(node, parts[0]).Some?
    ensures Effective(ChildOf(node, parts[0]).value, parts[1..]) == parts[1..]
    decreases |parts|, 0
  {
    var child := ChildOf(node, parts[0]).value;
    forall p | Claimed(child, p) ensures Agree(p, parts[1..]) {
      var longer := [parts[0]] + p;
      assert longer[1..] == p;
      assert Claimed(node, longer);
      assert Agree(longer, parts);
    }
    AgreedIsDeclared(child, parts[1..]);
  }

  lemma {:induction false} ClashIsNotDeclared<T>(node: Tree<T>, parts: Pattern, p: Pattern)
    requires WellFormed(parts) && Claimed(node, p) && !Agree(p, parts)
    ensures Effective(node, parts) != parts
    decreases |parts|
  {
    assert parts == [parts[0]] + parts[1..];
    if p[0] == parts[0] && !p[0].Rest? {
      ClashIsNotDeclared(ChildOf(node, p[0]).value, parts[1..], p[1..]);
    }
  }

  /** An insertion claims the paths along its walk and no others. */
  lemma {:induction false} InsertClaims<T>(node: Tree<T>, parts: Pattern, put: Option<Put<T>>, p: Pattern)
    requires WellFormed(parts) && Claimed(Insert(node, parts, put), p)
    ensures Claimed(node, p) || p <= Effective(node, parts)
    decreases |parts|
  {
    if parts != [] && p != [] {
      assert p == [p[0]] + p[1..];
      match parts[0]
      case Lit(text) =>
        if p[0].Lit? {
          InsertLitFinds(node.literal, parts, put, p[0].text);
          if p[0].text == text {
            var child := FindLit(node.literal, text);
            EffectiveOfLeaf<T>(parts[1..]);
            InsertClaims(if child.Some? then child.value else Leaf(), parts[1..], put, p[1..]);
            LeafIsUnclaimed<T>(p[1..]);
          }
        }
      case Dyn(name, _) =>
        if p[0].Dyn? {
          InsertDynFinds(node.dynamic, parts, put, p[0].name);
          if p[0].name == name {
            var e := FindDyn(node.dynamic, name);
            EffectiveOfLeaf<T>(parts[1..]);
            InsertClaims(if e.Some? then e.value.child else Leaf(), parts[1..], put, p[1..]);
            LeafIsUnclaimed<T>(p[1..]);
          }
        }
      case Rest(_) =>
    }
  }

  lemma LeafIsUnclaimed<T>(p: Pattern)
    ensures Claimed(Leaf<T>(), p) ==> p == []
  {
  }
}
