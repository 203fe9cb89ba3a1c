/** What adding a route does to the tree, and what the router as a whole answers. */
module RoutingTable {
  import opened Bytes
  import opened Routing

  // -- the tree, read by pattern --------------------------------------------------------

  function FindDyn<T>(edges: seq<DynEdge<T>>, name: string): Option<DynEdge<T>> {
    if edges == [] then None else if edges[0].name == name then Some(edges[0]) else FindDyn(edges[1..], name)
  }

  /** The subtree behind a part, if there is one. */
  function ChildOf<T>(node: Tree<T>, part: Part): Option<Tree<T>> {
    match part
    case Lit(text) => FindLit(node.literal, text)
    case Dyn(name, c) =>
      var e := FindDyn(node.dynamic, name);
      if e.Some? && e.value.converter == c then Some(e.value.child) else None
    case Rest(_) => None
  }

  function RestAt<T>(node: Tree<T>, name: string): map<string, T> {
    if node.catchAll.Some? && node.catchAll.value.name == name then node.catchAll.value.handlers else map[]
  }

  /** The handlers registered on exactly this pattern. */
  function HandlersAt<T>(node: Tree<T>, q: Pattern): map<string, T>
    decreases |q|
  {
    if q == [] then node.handlers
    else if q[0].Rest? then if |q| == 1 then RestAt(node, q[0].name) else map[]
    else
      var child := ChildOf(node, q[0]);
      if child.None? then map[] else HandlersAt(child.value, q[1..])
  }

  /** Where a walk along `parts` ends: edges found by name keep their converter, and a
      parameter that takes the rest keeps its first name. */
  function Effective<T>(node: Tree<T>, parts: Pattern): (r: Pattern)
    ensures |r| == |parts|
    decreases |parts|
  {
    if parts == [] then []
    else
      match parts[0]
      case Lit(text) =>
        var child := FindLit(node.literal, text);
        if child.None? then parts else [parts[0]] + Effective(child.value, parts[1..])
      case Dyn(name, c) =>
        var e := FindDyn(node.dynamic, name);
        if e.None? then parts else [Dyn(name, e.value.converter)] + Effective(e.value.child, parts[1..])
      case Rest(name) => if node.catchAll.None? then parts else [Rest(node.catchAll.value.name)] + parts[1..]
  }

  // -- one insertion ------------------------------------------------------------------------

  lemma {:induction false} InsertLitFinds<T>(edges: seq<LitEdge<T>>, parts: Pattern, put: Option<Put<T>>, text: string)
    requires parts != [] && parts[0].Lit?
    ensures var child := FindLit(edges, parts[0].text);
            FindLit(InsertLit(edges, parts, put), text) ==
            if text == parts[0].text
            then Some(Insert(if child.Some? then child.value else Leaf(), parts[1..], put))
            else FindLit(edges, text)
    decreases |edges|
  {
    if edges != [] { InsertLitFinds(edges[1..], parts, put, text); }
  }

  lemma {:induction false} InsertDynFinds<T>(edges: seq<DynEdge<T>>, parts: Pattern, put: Option<Put<T>>, name: string)
    requires parts != [] && parts[0].Dyn?
    ensures var e := FindDyn(edges, parts[0].name);
            FindDyn(InsertDyn(edges, parts, put), name) ==
            if name == parts[0].name
            then Some(DynEdge(name, if e.Some? then e.value.converter else parts[0].converter,
                              Insert(if e.Some? then e.value.child else Leaf(), parts[1..], put)))
            else FindDyn(edges, name)
    decreases |edges|
  {
    if edges != [] {
      InsertDynFinds(edges[1..], parts, put, name);
      assert edges[0].name == parts[0].name ==> edges[0].(child := Insert(edges[0].child, parts[1..], put)).name == edges[0].name;
    }
  }

  lemma {:induction false} EffectiveOfLeaf<T>(parts: Pattern)
    ensures Effective(Leaf<T>(), parts) == parts
  {
  }

  lemma {:induction false} LeafHoldsNothing<T>(q: Pattern)
    ensures HandlersAt(Leaf<T>(), q) == map[]
  {
  }

  lemma {:induction false} InsertLitAt<T>(node: Tree<T>, parts: Pattern, put: Option<Put<T>>, q: Pattern)
    requires WellFormed(parts) && parts != [] && parts[0].Lit?
    ensures HandlersAt(Insert(node, parts, put), q) ==
            if q == Effective(node, parts) then PutIn(HandlersAt(node, q), put) else HandlersAt(node, q)
    decreases |parts|, 0
  {
    hide FindDyn, FindLit, InsertDyn, InsertLit;
    if q != [] && q[0].Lit? { InsertLitFinds(node.literal, parts, put, q[0].text); }
    if q != [] && q[0] == parts[0] {
      var child := FindLit(node.literal, parts[0].text);
      EffectiveOfLeaf<T>(parts[1..]);
      LeafHoldsNothing<T>(q[1..]);
      InsertAt(if child.Some? then child.value else Leaf(), parts[1..], put, q[1..]);
      assert q == [q[0]] + q[1..] && parts == [parts[0]] + parts[1..];
    }
  }

  lemma {:induction false} InsertDynAt<T>(node: Tree<T>, parts: Pattern, put: Option<Put<T>>, q: Pattern)
    requires WellFormed(parts) && parts != [] && parts[0].Dyn?
    ensures HandlersAt(Insert(node, parts, put), q) ==
            if q == Effective(node, parts) then PutIn(HandlersAt(node, q), put) else HandlersAt(node, q)
    decreases |parts|, 0
  {
    hide FindDyn, FindLit, InsertDyn, InsertLit;
    if q != [] && q[0].Dyn? { InsertDynFinds(node.dynamic, parts, put, q[0].name); }
    if q != [] && q[0].Dyn? && q[0].name == parts[0].name {
      var e := FindDyn(node.dynamic, parts[0].name);
      EffectiveOfLeaf<T>(parts[1..]);
      LeafHoldsNothing<T>(q[1..]);
      InsertAt(if e.Some? then e.value.child else Leaf(), parts[1..], put, q[1..]);
      assert q == [q[0]] + q[1..] && parts == [parts[0]] + parts[1..];
    }
  }

  /** Adding a value changes the handlers of one pattern, the one where the walk ends. */
  lemma {:induction false} InsertAt<T>(node: Tree<T>, parts: Pattern, put: Option<Put<T>>, q: Pattern)
    requires WellFormed(parts)
    ensures HandlersAt(Insert(node, parts, put), q) ==
            if q == Effective(node, parts) then PutIn(HandlersAt(node, q), put) else HandlersAt(node, q)
    decreases |parts|, 1
  {
    if parts != [] {
      match parts[0]
      case Lit(_) => InsertLitAt(node, parts, put, q);
      case Dyn(_, _) => InsertDynAt(node, parts, put, q);
      case Rest(_) =>
        assert parts == [parts[0]] by { assert !(0 <= 0 < |parts| - 1); }
        if q != [] { assert q == [q[0]] + q[1..]; }
    }
  }

  lemma {:induction false} InsertKeepsUnique<T>(node: Tree<T>, parts: Pattern, put: Option<Put<T>>)
    requires Unique(node)
    ensures Unique(Insert(node, parts, put))
    decreases |parts|, 1, 0
  {
    if parts != [] {
      match parts[0]
      case Lit(_) => InsertLitKeepsUnique(node.literal, parts, put);
      case Dyn(_, _) => InsertDynKeepsUnique(node.dynamic, parts, put);
      case Rest(_) =>
    }
  }

  lemma {:induction false} InsertLitKeepsUnique<T>(edges: seq<LitEdge<T>>, parts: Pattern, put: Option<Put<T>>)
    requires UniqueLits(edges) && parts != [] && parts[0].Lit?
    ensures var r := InsertLit(edges, parts, put);
            && UniqueLits(r)
            && forall i :: 0 <= i < |r| ==> r[i].text == parts[0].text || exists j :: 0 <= j < |edges| && edges[j].text == r[i].text
    decreases |parts|, 0, |edges|
  {
    var r := InsertLit(edges, parts, put);
    if edges == [] {
      InsertKeepsUnique(Leaf<T>(), parts[1..], put);
    } else if edges[0].text == parts[0].text {
      InsertKeepsUnique(edges[0].child, parts[1..], put);
      assert r[1..] == edges[1..];
    } else {
      InsertLitKeepsUnique(edges[1..], parts, put);
      assert r[1..] == InsertLit(edges[1..], parts, put);
      forall i | 0 < i < |r|
        ensures r[i].text != r[0].text
        ensures r[i].text == parts[0].text || exists j :: 0 <= j < |edges| && edges[j].text == r[i].text
      {
        assert r[i] == r[1..][i - 1];
        if r[i].text != parts[0].text {
          var j :| 0 <= j < |edges[1..]| && edges[1..][j].text == r[i].text;
          assert edges[j + 1].text == r[i].text;
        }
      }
    }
  }

  lemma {:induction false} InsertDynKeepsUnique<T>(edges: seq<DynEdge<T>>, parts: Pattern, put: Option<Put<T>>)
    requires UniqueDyns(edges) && parts != [] && parts[0].Dyn?
    ensures var r := InsertDyn(edges, parts, put);
            && UniqueDyns(r)
            && forall i :: 0 <= i < |r| ==> r[i].name == parts[0].name || exists j :: 0 <= j < |edges| && edges[j].name == r[i].name
    decreases |parts|, 0, |edges|
  {
    var r := InsertDyn(edges, parts, put);
    if edges == [] {
      InsertKeepsUnique(Leaf<T>(), parts[1..], put);
    } else if edges[0].name == parts[0].name {
      InsertKeepsUnique(edges[0].child, parts[1..], put);
      assert r[1..] == edges[1..];
    } else {
      InsertDynKeepsUnique(edges[1..], parts, put);
      assert r[1..] == InsertDyn(edges[1..], parts, put);
      forall i | 0 < i < |r|
        ensures r[i].name != r[0].name
        ensures r[i].name == parts[0].name || exists j :: 0 <= j < |edges| && edges[j].name == r[i].name
      {
        assert r[i] == r[1..][i - 1];
        if r[i].name != parts[0].name {
          var j :| 0 <= j < |edges[1..]| && edges[1..][j].name == r[i].name;
          assert edges[j + 1].name == r[i].name;
        }
      }
    }
  }

  // -- the entries are the patterns with handlers ----------------------------------------------

  ghost predicate Has<T>(entries: seq<Entry<T>>, q: Pattern, handlers: map<string, T>) { Entry(q, handlers) in entries }

  lemma HasPrefixed<T>(part: Part, entries: seq<Entry<T>>, q: Pattern, handlers: map<string, T>)
    ensures Has(Prefixed(part, entries), q, handlers) <==> q != [] && q[0] == part && Has(entries, q[1..], handlers)
  {
    var r := Prefixed(part, entries);
    if Has(r, q, handlers) {
      var i :| 0 <= i < |r| && r[i] == Entry(q, handlers);
      assert q == [part] + entries[i].pattern;
      assert q[1..] == entries[i].pattern;
      assert entries[i] == Entry(q[1..], handlers);
    }
    if q != [] && q[0] == part && Has(entries, q[1..], handlers) {
      var i :| 0 <= i < |entries| && entries[i] == Entry(q[1..], handlers);
      assert [part] + q[1..] == q;
      assert r[i] == Entry(q, handlers);
    }
  }

  lemma {:induction false} LitEntriesHave<T>(edges: seq<LitEdge<T>>, q: Pattern, handlers: map<string, T>)
    requires UniqueLits(edges) && handlers != map[]
    ensures Has(LitEntries(edges), q, handlers) <==>
            q != [] && q[0].Lit? && FindLit(edges, q[0].text).Some?
            && HandlersAt(FindLit(edges, q[0].text).value, q[1..]) == handlers
    decreases edges
  {
    if edges != [] {
      var e := edges[0];
      HasPrefixed(Lit(e.text), Entries(e.child), q, handlers);
      LitEntriesHave(edges[1..], q, handlers);
      if q != [] && q[0] == Lit(e.text) {
        EntriesAreHandlers(e.child, q[1..], handlers);
        NoOtherLit(edges[1..], e.text);
      }
    }
  }

  lemma {:induction false} NoOtherDyn<T>(edges: seq<DynEdge<T>>, name: string)
    requires forall i :: 0 <= i < |edges| ==> edges[i].name != name
    ensures FindDyn(edges, name).None?
    decreases |edges|
  {
    if edges != [] { NoOtherDyn(edges[1..], name); }
  }

  lemma {:induction false} DynEntriesHave<T>(edges: seq<DynEdge<T>>, q: Pattern, handlers: map<string, T>)
    requires UniqueDyns(edges) && handlers != map[]
    ensures Has(DynEntries(edges), q, handlers) <==>
            q != [] && q[0].Dyn? && FindDyn(edges, q[0].name).Some? && FindDyn(edges, q[0].name).value.converter == q[0].converter
            && HandlersAt(FindDyn(edges, q[0].name).value.child, q[1..]) == handlers
    decreases edges
  {
    if edges != [] {
      var e := edges[0];
      HasPrefixed(Dyn(e.name, e.converter), Entries(e.child), q, handlers);
      DynEntriesHave(edges[1..], q, handlers);
      if q != [] && q[0].Dyn? && q[0].name == e.name {
        EntriesAreHandlers(e.child, q[1..], handlers);
        NoOtherDyn(edges[1..], e.name);
      }
    }
  }

  /** The scanned list holds every pattern that has handlers, and nothing else. */
  lemma {:induction false} EntriesAreHandlers<T>(node: Tree<T>, q: Pattern, handlers: map<string, T>)
    requires Unique(node) && handlers != map[]
    ensures Has(Entries(node), q, handlers) <==> HandlersAt(node, q) == handlers
    decreases node
  {
    LitEntriesHave(node.literal, q, handlers);
    DynEntriesHave(node.dynamic, q, handlers);
    assert Has(RestEntries(node.catchAll), q, handlers) <==>
           |q| == 1 && q[0].Rest? && RestAt(node, q[0].name) == handlers by {
      if |q| == 1 { assert q == [q[0]]; }
    }
    assert Has(if node.handlers != map[] then [Entry([], node.handlers)] else [], q, handlers) <==>
           q == [] && node.handlers == handlers;
  }
}
