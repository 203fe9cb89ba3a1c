/** The router in its own form: node objects that `add` updates in place and that a
    lookup searches. Each node's ghost field `tree` is the value it stands for. */
module RouterObjects {
  import opened Bytes
  import opened Routing
  import opened RoutingTable
  import opened RouterRuns

  datatype LitRef<!T> = LitRef(text: string, node: Node<T>)

  datatype DynRef<!T> = DynRef(name: string, converter: Converter, node: Node<T>)

  datatype RestRef<!T> = RestRef(name: string, node: Node<T>)

  class Node<T> {
    var literal: seq<LitRef<T>>
    var dynamic: seq<DynRef<T>>
    var catchAll: Option<RestRef<T>>
    var handlers: map<string, T>
    ghost var tree: Tree<T>
    // Where the node hangs: at most one edge leads to it.
    ghost const parent: Node?<T>
    ghost const depth: nat
    ghost const kind: nat
    ghost const index: nat

    constructor (ghost parent: Node?<T>, ghost depth: nat, ghost kind: nat, ghost index: nat)
      ensures this.parent == parent && this.depth == depth && this.kind == kind && this.index == index
      ensures tree == Leaf() && literal == [] && dynamic == [] && catchAll == None && handlers == map[]
    {
      literal, dynamic, catchAll, handlers := [], [], None, map[];
      tree := Leaf();
      this.parent, this.depth, this.kind, this.index := parent, depth, kind, index;
    }

    ghost predicate HangsFrom(n: Node<T>, kind: nat, index: nat) {
      parent == n && depth == n.depth + 1 && this.kind == kind && this.index == index
    }

    ghost predicate IsKidOf(n: Node<T>)
      reads n
    {
      && (kind == 0 ==> index < |n.literal| && n.literal[index].node == this)
      && (kind == 1 ==> index < |n.dynamic| && n.dynamic[index].node == this)
      && (kind >= 2 ==> n.catchAll.Some? && n.catchAll.value.node == this)
    }
  }

  /** The node stands for its tree, given that its children stand for theirs. */
  ghost predicate Stands<T>(n: Node<T>, nodes: set<Node<T>>)
    requires n in nodes
    reads nodes
  {
    && n.handlers == n.tree.handlers
    && |n.literal| == |n.tree.literal|
    && (forall i :: 0 <= i < |n.literal| ==>
          var r, e := n.literal[i], n.tree.literal[i];
          r.node in nodes && r.node.HangsFrom(n, 0, i) && r.text == e.text && r.node.tree == e.child)
    && |n.dynamic| == |n.tree.dynamic|
    && (forall i :: 0 <= i < |n.dynamic| ==>
          var r, e := n.dynamic[i], n.tree.dynamic[i];
          && r.node in nodes && r.node.HangsFrom(n, 1, i) && r.name == e.name && r.converter == e.converter
          && r.node.tree == e.child)
    && n.catchAll.Some? == n.tree.catchAll.Some?
    && (n.catchAll.Some? ==>
          var r, e := n.catchAll.value, n.tree.catchAll.value;
          && r.node in nodes && r.node.HangsFrom(n, 2, 0) && r.name == e.name
          && r.node.tree == Leaf<T>().(handlers := e.handlers))
  }

  ghost predicate StandFrom<T>(nodes: set<Node<T>>, depth: nat)
    reads nodes
  {
    forall n :: n in nodes && n.depth >= depth ==> Stands(n, nodes)
  }

  // -- one edge of a node ---------------------------------------------------------------

  lemma {:induction false} InsertLitIs<T>(edges: seq<LitEdge<T>>, parts: Pattern, put: Option<Put<T>>, i: nat)
    requires parts != [] && parts[0].Lit? && i <= |edges|
    requires forall j :: 0 <= j < i ==> edges[j].text != parts[0].text
    requires i < |edges| ==> edges[i].text == parts[0].text
    ensures InsertLit(edges, parts, put) ==
            if i < |edges| then edges[i := edges[i].(child := Insert(edges[i].child, parts[1..], put))]
            else edges + [LitEdge(parts[0].text, Insert(Leaf(), parts[1..], put))]
    decreases |edges|
  {
    if i > 0 { InsertLitIs(edges[1..], parts, put, i - 1); }
  }

  lemma {:induction false} InsertDynIs<T>(edges: seq<DynEdge<T>>, parts: Pattern, put: Option<Put<T>>, i: nat)
    requires parts != [] && parts[0].Dyn? && i <= |edges|
    requires forall j :: 0 <= j < i ==> edges[j].name != parts[0].name
    requires i < |edges| ==> edges[i].name == parts[0].name
    ensures InsertDyn(edges, parts, put) ==
            if i < |edges| then edges[i := edges[i].(child := Insert(edges[i].child, parts[1..], put))]
            else edges + [DynEdge(parts[0].name, parts[0].converter, Insert(Leaf(), parts[1..], put))]
    decreases |edges|
  {
    if i > 0 { InsertDynIs(edges[1..], parts, put, i - 1); }
  }

  lemma {:induction false} FindLitIs<T>(edges: seq<LitEdge<T>>, text: string, i: nat)
    requires i <= |edges| && (forall j :: 0 <= j < i ==> edges[j].text != text) && (i < |edges| ==> edges[i].text == text)
    ensures FindLit(edges, text) == if i < |edges| then Some(edges[i].child) else None
    decreases |edges|
  {
    if i > 0 { FindLitIs(edges[1..], text, i - 1); }
  }

  lemma {:induction false} FindDynIs<T>(edges: seq<DynEdge<T>>, name: string, i: nat)
    requires i <= |edges| && (forall j :: 0 <= j < i ==> edges[j].name != name) && (i < |edges| ==> edges[i].name == name)
    ensures FindDyn(edges, name) == if i < |edges| then Some(edges[i]) else None
    decreases |edges|
  {
    if i > 0 { FindDynIs(edges[1..], name, i - 1); }
  }

  /** The tree after `setdefault` of the edge at `i`. */
  function MadeLit<T>(t: Tree<T>, text: string, i: nat): (r: Tree<T>)
    requires i <= |t.literal|
    ensures i < |r.literal|
  {
    if i < |t.literal| then t else t.(literal := t.literal + [LitEdge(text, Leaf())])
  }

  function MadeDyn<T>(t: Tree<T>, name: string, c: Converter, i: nat): (r: Tree<T>)
    requires i <= |t.dynamic|
    ensures i < |r.dynamic|
  {
    if i < |t.dynamic| then t else t.(dynamic := t.dynamic + [DynEdge(name, c, Leaf())])
  }

  /** The tree with that of the child at this edge replaced. */
  function Replaced<T>(t: Tree<T>, kind: nat, index: nat, child: Tree<T>): Tree<T>
    requires (kind == 0 && index < |t.literal|) || (kind == 1 && index < |t.dynamic|)
  {
    if kind == 0 then t.(literal := t.literal[index := t.literal[index].(child := child)])
    else t.(dynamic := t.dynamic[index := t.dynamic[index].(child := child)])
  }

  lemma LitWalk<T>(t: Tree<T>, parts: Pattern, put: Option<Put<T>>, i: nat)
    requires WellFormed(parts) && parts != [] && parts[0].Lit? && i <= |t.literal|
    requires forall j :: 0 <= j < i ==> t.literal[j].text != parts[0].text
    requires i < |t.literal| ==> t.literal[i].text == parts[0].text
    ensures var m := MadeLit(t, parts[0].text, i);
            var below := m.literal[i].child;
            && WellFormed(parts[1..])
            && Insert(t, parts, put) == Replaced(m, 0, i, Insert(below, parts[1..], put))
            && HandlersAt(t, Effective(t, parts)) == HandlersAt(below, Effective(below, parts[1..]))
  {
    InsertLitIs(t.literal, parts, put, i);
    LitHandlers(t, parts, i);
  }

  lemma DynWalk<T>(t: Tree<T>, parts: Pattern, put: Option<Put<T>>, i: nat)
    requires WellFormed(parts) && parts != [] && parts[0].Dyn? && i <= |t.dynamic|
    requires forall j :: 0 <= j < i ==> t.dynamic[j].name != parts[0].name
    requires i < |t.dynamic| ==> t.dynamic[i].name == parts[0].name
    ensures var m := MadeDyn(t, parts[0].name, parts[0].converter, i);
            var below := m.dynamic[i].child;
            && WellFormed(parts[1..])
            && Insert(t, parts, put) == Replaced(m, 1, i, Insert(below, parts[1..], put))
            && HandlersAt(t, Effective(t, parts)) == HandlersAt(below, Effective(below, parts[1..]))
  {
    InsertDynIs(t.dynamic, parts, put, i);
    DynHandlers(t, parts, i);
  }

  class Router<T> {
    const root: Node<T>
    var statics: map<string, map<string, T>>
    ghost var nodes: set<Node<T>>

    ghost predicate Valid()
      reads this, nodes
    {
      root in nodes && root.depth == 0 && StandFrom(nodes, 0)
    }

    ghost function State(): Routes<T>
      reads this, root
    {
      Routes(statics, root.tree)
    }

    constructor ()
      ensures Valid() && fresh(nodes) && State() == Built([])
    {
      statics := map[];
      root := new Node(null, 0, 0, 0);
      new;
      nodes := {root};
    }

    method LitIndex(n: Node<T>, text: string) returns (i: nat)
      requires n in nodes && Stands(n, nodes)
      ensures i <= |n.tree.literal| && forall j :: 0 <= j < i ==> n.tree.literal[j].text != text
      ensures i < |n.tree.literal| ==> n.tree.literal[i].text == text
    {
      i := 0;
      while i < |n.literal| && n.literal[i].text != text
        invariant i <= |n.literal| && forall j :: 0 <= j < i ==> n.tree.literal[j].text != text
      {
        i := i + 1;
      }
    }

    method DynIndex(n: Node<T>, name: string) returns (i: nat)
      requires n in nodes && Stands(n, nodes)
      ensures i <= |n.tree.dynamic| && forall j :: 0 <= j < i ==> n.tree.dynamic[j].name != name
      ensures i < |n.tree.dynamic| ==> n.tree.dynamic[i].name == name
    {
      i := 0;
      while i < |n.dynamic| && n.dynamic[i].name != name
        invariant i <= |n.dynamic| && forall j :: 0 <= j < i ==> n.tree.dynamic[j].name != name
      {
        i := i + 1;
      }
    }

    /** The edge at `i`, created if `i` is one past the last. */
    method LitChild(n: Node<T>, text: string, i: nat) returns (child: Node<T>)
      requires n in nodes && StandFrom(nodes, n.depth) && i <= |n.tree.literal|
      requires i < |n.tree.literal| ==> n.tree.literal[i].text == text
      modifies this`nodes, n
      ensures Grown(n) && StandFrom(nodes, n.depth) && child in nodes && child.HangsFrom(n, 0, i) && child.IsKidOf(n)
      ensures n.tree == MadeLit(old(n.tree), text, i) && child.tree == MadeLit(old(n.tree), text, i).literal[i].child
    {
      if i < |n.literal| {
        return n.literal[i].node;
      }
      child := NewLitChild(n, text);
    }

    method NewLitChild(n: Node<T>, text: string) returns (child: Node<T>)
      requires n in nodes && StandFrom(nodes, n.depth)
      modifies this`nodes, n
      ensures Grown(n) && StandFrom(nodes, n.depth) && child in nodes
      ensures child.HangsFrom(n, 0, |old(n.tree).literal|) && child.IsKidOf(n) && child.tree == Leaf()
      ensures n.tree == old(n.tree).(literal := old(n.tree).literal + [LitEdge(text, Leaf())])
    {
      child := new Node(n, n.depth + 1, 0, |n.literal|);
      n.literal := n.literal + [LitRef(text, child)];
      n.tree := n.tree.(literal := n.tree.literal + [LitEdge(text, Leaf())]);
      nodes := nodes + {child};
      assert Stands(child, nodes) && Stands(n, nodes);
      OthersStand(n);
    }

    method DynChild(n: Node<T>, name: string, c: Converter, i: nat) returns (child: Node<T>)
      requires n in nodes && StandFrom(nodes, n.depth) && i <= |n.tree.dynamic|
      requires i < |n.tree.dynamic| ==> n.tree.dynamic[i].name == name
      modifies this`nodes, n
      ensures Grown(n) && StandFrom(nodes, n.depth) && child in nodes && child.HangsFrom(n, 1, i) && child.IsKidOf(n)
      ensures n.tree == MadeDyn(old(n.tree), name, c, i) && child.tree == MadeDyn(old(n.tree), name, c, i).dynamic[i].child
    {
      if i < |n.dynamic| {
        return n.dynamic[i].node;
      }
      child := NewDynChild(n, name, c);
    }

    method NewDynChild(n: Node<T>, name: string, c: Converter) returns (child: Node<T>)
      requires n in nodes && StandFrom(nodes, n.depth)
      modifies this`nodes, n
      ensures Grown(n) && StandFrom(nodes, n.depth) && child in nodes
      ensures child.HangsFrom(n, 1, |old(n.tree).dynamic|) && child.IsKidOf(n) && child.tree == Leaf()
      ensures n.tree == old(n.tree).(dynamic := old(n.tree).dynamic + [DynEdge(name, c, Leaf())])
    {
      child := new Node(n, n.depth + 1, 1, |n.dynamic|);
      n.dynamic := n.dynamic + [DynRef(name, c, child)];
      n.tree := n.tree.(dynamic := n.tree.dynamic + [DynEdge(name, c, Leaf())]);
      nodes := nodes + {child};
      assert Stands(child, nodes) && Stands(n, nodes);
      OthersStand(n);
    }

    /** The walk from `n` along `parts`, creating what is missing; then the value is put
        where it ends, unless the method is taken there. */
    method Walk(n: Node<T>, parts: Pattern, put: Option<Put<T>>) returns (taken: bool)
      requires n in nodes && StandFrom(nodes, n.depth) && WellFormed(parts)
      modifies this`nodes, nodes
      ensures Grown(n) && StandFrom(nodes, n.depth)
      ensures forall x :: x in old(nodes) && x.depth <= n.depth && x != n ==> unchanged(x)
      ensures n.tree == Insert(old(n.tree), parts, put)
      ensures taken <==> put.Some? && put.value.verb in HandlersAt(old(n.tree), Effective(old(n.tree), parts))
      decreases |parts|, 1
    {
      if parts == [] {
        taken := put.Some? && put.value.verb in n.handlers;
        if put.Some? && !taken {
          n.handlers := n.handlers[put.value.verb := put.value.value];
          n.tree := n.tree.(handlers := n.handlers);
        }
        assert Stands(n, nodes);
        OthersStand(n);
      } else if parts[0].Lit? {
        taken := WalkLit(n, parts, put);
      } else if parts[0].Dyn? {
        taken := WalkDyn(n, parts, put);
      } else {
        assert parts == [parts[0]];
        taken := WalkRest(n, parts[0].name, put);
      }
    }

    method WalkLit(n: Node<T>, parts: Pattern, put: Option<Put<T>>) returns (taken: bool)
      requires n in nodes && StandFrom(nodes, n.depth) && WellFormed(parts) && parts != [] && parts[0].Lit?
      modifies this`nodes, nodes
      ensures Grown(n) && StandFrom(nodes, n.depth)
      ensures forall x :: x in old(nodes) && x.depth <= n.depth && x != n ==> unchanged(x)
      ensures n.tree == Insert(old(n.tree), parts, put)
      ensures taken <==> put.Some? && put.value.verb in HandlersAt(old(n.tree), Effective(old(n.tree), parts))
      decreases |parts|, 0
    {
      var i := LitIndex(n, parts[0].text);
      LitWalk(n.tree, parts, put, i);
      hide Insert, Effective, HandlersAt, WellFormed, Stands, MadeLit, Replaced;
      var child := LitChild(n, parts[0].text, i);
      taken := Descend(n, child, parts[1..], put);
    }

    method WalkDyn(n: Node<T>, parts: Pattern, put: Option<Put<T>>) returns (taken: bool)
      requires n in nodes && StandFrom(nodes, n.depth) && WellFormed(parts) && parts != [] && parts[0].Dyn?
      modifies this`nodes, nodes
      ensures Grown(n) && StandFrom(nodes, n.depth)
      ensures forall x :: x in old(nodes) && x.depth <= n.depth && x != n ==> unchanged(x)
      ensures n.tree == Insert(old(n.tree), parts, put)
      ensures taken <==> put.Some? && put.value.verb in HandlersAt(old(n.tree), Effective(old(n.tree), parts))
      decreases |parts|, 0
    {
      var i := DynIndex(n, parts[0].name);
      DynWalk(n.tree, parts, put, i);
      hide Insert, Effective, HandlersAt, WellFormed, Stands, MadeDyn, Replaced;
      var child := DynChild(n, parts[0].name, parts[0].converter, i);
      taken := Descend(n, child, parts[1..], put);
    }

    /** The rest of the walk, from a child whose tree the node then takes over. */
    method Descend(n: Node<T>, child: Node<T>, rest: Pattern, put: Option<Put<T>>) returns (taken: bool)
      requires n in nodes && child in nodes && StandFrom(nodes, n.depth) && WellFormed(rest)
      requires child.HangsFrom(n, child.kind, child.index) && child.kind <= 1 && child.IsKidOf(n)
      requires (child.kind == 0 && child.index < |n.tree.literal|) || (child.kind == 1 && child.index < |n.tree.dynamic|)
      modifies this`nodes, nodes
      ensures Grown(n) && StandFrom(nodes, n.depth) && n.tree == Replaced(old(n.tree), child.kind, child.index, child.tree)
      ensures forall x :: x in old(nodes) && x.depth <= n.depth && x != n ==> unchanged(x)
      ensures child.tree == Insert(old(child.tree), rest, put)
      ensures taken <==> put.Some? && put.value.verb in HandlersAt(old(child.tree), Effective(old(child.tree), rest))
      decreases |rest|, 2
    {
      hide Insert, Effective, HandlersAt, WellFormed;
      assert Stands(n, nodes);
      taken := Walk(child, rest, put);
      TakeTree(n, child);
      hide Stands;
      ParentStands(n, child);
    }

    ghost method TakeTree(n: Node<T>, child: Node<T>)
      requires n in nodes && n.depth < child.depth && StandFrom(nodes, child.depth)
      requires (child.kind == 0 && child.index < |n.tree.literal|) || (child.kind == 1 && child.index < |n.tree.dynamic|)
      modifies n`tree
      ensures StandFrom(nodes, child.depth)
      ensures n.tree == Replaced(old(n.tree), child.kind, child.index, child.tree)
    {
      n.tree := Replaced(n.tree, child.kind, child.index, child.tree);
      hide Stands;
      DeeperStand(n, child.depth);
    }

    method RestChild(n: Node<T>, name: string) returns (child: Node<T>)
      requires n in nodes && StandFrom(nodes, n.depth)
      modifies this`nodes, n
      ensures Grown(n) && StandFrom(nodes, n.depth) && child in nodes && child.HangsFrom(n, 2, 0) && child.IsKidOf(n)
      ensures n.tree == old(n.tree).(catchAll := Some(if old(n.tree).catchAll.Some? then old(n.tree).catchAll.value
                                                      else CatchAll(name, map[])))
    {
      if n.catchAll.Some? {
        return n.catchAll.value.node;
      }
      child := new Node(n, n.depth + 1, 2, 0);
      n.catchAll := Some(RestRef(name, child));
      n.tree := n.tree.(catchAll := Some(CatchAll(name, map[])));
      nodes := nodes + {child};
      assert Stands(child, nodes) && Stands(n, nodes);
      OthersStand(n);
    }

    method WalkRest(n: Node<T>, name: string, put: Option<Put<T>>) returns (taken: bool)
      requires n in nodes && StandFrom(nodes, n.depth)
      modifies this`nodes, nodes
      ensures Grown(n) && StandFrom(nodes, n.depth)
      ensures forall x :: x in old(nodes) && x.depth <= n.depth && x != n ==> unchanged(x)
      ensures n.tree == Insert(old(n.tree), [Rest(name)], put)
      ensures taken <==> put.Some? && put.value.verb in HandlersAt(old(n.tree), Effective(old(n.tree), [Rest(name)]))
    {
      var child := RestChild(n, name);
      label L:
      taken := put.Some? && put.value.verb in child.handlers;
      if put.Some? && !taken {
        child.handlers := child.handlers[put.value.verb := put.value.value];
        child.tree := child.tree.(handlers := child.handlers);
        n.tree := n.tree.(catchAll := Some(n.tree.catchAll.value.(handlers := child.handlers)));
      }
      LeafStands@L(n, child);
      ParentStands@L(n, child);
    }

    /** The refusal stands for the exception that `add` raises. */
    method Add(verb: string, path: string, value: T) returns (refusal: Option<Refusal>)
      requires Valid()
      modifies this, nodes
      ensures Valid() && fresh(nodes - old(nodes))
      ensures Added(State(), refusal) == RouterRuns.Add(old(State()), verb, path, value)
    {
      hide Insert, HandlersAt, Effective, WalkOf, NormalizePath;
      var key := NormalizePath(path);
      if IsDynamic(key) {
        var w := WalkOf(SplitPath(key));
        WalksAreWellFormed(SplitPath(key));
        var taken := Walk(root, w.parts, if w.refusal.Some? then None else Some(Put(verb, value)));
        return if w.refusal.Some? then w.refusal else if taken then Some(Conflict) else None;
      }
      var handlers := GetStatic(statics, key);
      if verb in handlers {
        return Some(Conflict);
      }
      statics := statics[key := handlers[verb := value]];
      return None;
    }

    method Resolve(accepts: Accepts, path: string) returns (r: Option<Found<T>>)
      requires Valid()
      ensures r == RouterRuns.Resolve(State(), accepts, path)
    {
      var handlers := GetStatic(statics, NormalizePath(path));
      if handlers != map[] {
        return Some(Found(handlers, map[]));
      }
      r := Search(accepts, root, SplitPath(path), map[]);
    }

    /** The backtracking search. */
    method Search(accepts: Accepts, n: Node<T>, segments: seq<string>, params: Params) returns (r: Option<Found<T>>)
      requires Valid() && n in nodes
      ensures r == Match(accepts, n.tree, segments, params)
      decreases |segments|, 1
    {
      if segments == [] {
        return if n.handlers != map[] then Some(Found(n.handlers, params)) else None;
      }
      var i := LitIndex(n, segments[0]);
      FindLitIs(n.tree.literal, segments[0], i);
      hide FindLit, MatchDyn;
      if i < |n.literal| {
        r := Search(accepts, n.literal[i].node, segments[1..], params);
        if r.Some? {
          return;
        }
      }
      r := SearchDyn(accepts, n, segments, params);
      if r.Some? {
        return;
      }
      if n.catchAll.Some? && n.catchAll.value.node.handlers != map[] {
        var c := n.catchAll.value;
        return Some(Found(c.node.handlers, params[c.name := Text(JoinSegments(segments))]));
      }
      return None;
    }

    method SearchDyn(accepts: Accepts, n: Node<T>, segments: seq<string>, params: Params) returns (r: Option<Found<T>>)
      requires Valid() && n in nodes && segments != []
      ensures r == MatchDyn(accepts, n.tree.dynamic, segments, params)
      decreases |segments|, 0
    {
      hide Match;
      var j := 0;
      while j < |n.dynamic|
        invariant j <= |n.dynamic|
        invariant MatchDyn(accepts, n.tree.dynamic[j..], segments, params) == MatchDyn(accepts, n.tree.dynamic, segments, params)
      {
        var e := n.dynamic[j];
        assert n.tree.dynamic[j..][0] == n.tree.dynamic[j] && n.tree.dynamic[j..][1..] == n.tree.dynamic[j + 1..];
        if accepts(e.converter, segments[0]) {
          r := Search(accepts, e.node, segments[1..], params[e.name := Converted(e.converter, segments[0])]);
          if r.Some? {
            return;
          }
        }
        j := j + 1;
      }
      assert n.tree.dynamic[j..] == [];
      return None;
    }

    /** A node stands as long as neither it nor its children change. */
    twostate lemma StillStands(y: Node<T>)
      requires y in old(nodes) && old(nodes) <= nodes && old(Stands(y, nodes)) && unchanged(y)
      requires forall x :: x in old(nodes) && x.parent == y && x.depth == y.depth + 1 ==> unchanged(x)
      ensures Stands(y, nodes)
    {
    }

    /** A catch-all node has no children. */
    twostate lemma LeafStands(new n: Node<T>, new child: Node<T>)
      requires n in nodes && child in nodes && child.HangsFrom(n, 2, 0) && nodes == old(nodes)
      requires old(StandFrom(nodes, n.depth)) && child.tree == Leaf<T>().(handlers := child.handlers)
      requires child.literal == [] && child.dynamic == [] && child.catchAll == None
      requires forall x :: x in nodes && x != child && x != n ==> unchanged(x)
      ensures StandFrom(nodes, child.depth)
    {
      forall x | x in nodes && x.depth >= child.depth ensures Stands(x, nodes) {
        if x != child { StillStands(x); }
      }
    }

    twostate lemma DeeperStand(new n: Node<T>, depth: nat)
      requires n in nodes && nodes == old(nodes) && n.depth < depth && old(StandFrom(nodes, depth))
      requires forall x :: x in nodes && x != n ==> unchanged(x)
      ensures StandFrom(nodes, depth)
    {
      forall x | x in nodes && x.depth >= depth ensures Stands(x, nodes) { StillStands(x); }
    }

    /** New nodes are below `n`. */
    twostate predicate Grown(n: Node<T>)
      reads this
    {
      && old(nodes) <= nodes && fresh(nodes - old(nodes))
      && forall x :: x in nodes - old(nodes) ==> x.depth > n.depth
    }

    /** Where only `n` and new nodes changed, and those stand, all stand. */
    twostate lemma OthersStand(new n: Node<T>)
      requires n in old(nodes) && old(StandFrom(nodes, n.depth)) && Grown(n)
      requires Stands(n, nodes) && forall x :: x in nodes - old(nodes) ==> Stands(x, nodes)
      requires forall x :: x in old(nodes) && x != n ==> unchanged(x)
      ensures StandFrom(nodes, n.depth)
    {
      forall y | y in nodes && y.depth >= n.depth ensures Stands(y, nodes) {
        if y in old(nodes) && y != n { StillStands(y); }
      }
    }

    /** `t` is the tree of `n` with that of one child replaced. */
    ghost predicate Adopts(n: Node<T>, before: Tree<T>, child: Node<T>, t: Tree<T>)
      reads n, child
    {
      && t.handlers == before.handlers && child.IsKidOf(n)
      && (child.kind != 0 ==> t.literal == before.literal)
      && (child.kind == 0 ==>
            && child.index < |before.literal|
            && t.literal == before.literal[child.index := before.literal[child.index].(child := child.tree)])
      && (child.kind != 1 ==> t.dynamic == before.dynamic)
      && (child.kind == 1 ==>
            && child.index < |before.dynamic|
            && t.dynamic == before.dynamic[child.index := before.dynamic[child.index].(child := child.tree)])
      && (child.kind <= 1 ==> t.catchAll == before.catchAll)
      && (child.kind >= 2 ==>
            && before.catchAll.Some?
            && t.catchAll == Some(before.catchAll.value.(handlers := child.tree.handlers))
            && child.tree == Leaf<T>().(handlers := child.tree.handlers))
    }

    twostate lemma AdopterStands(new n: Node<T>, new child: Node<T>)
      requires n in old(nodes) && child in old(nodes) && child.parent == n && child.depth == n.depth + 1
      requires old(Stands(n, nodes)) && old(nodes) <= nodes && Adopts(n, old(n.tree), child, n.tree)
      requires n.literal == old(n.literal) && n.dynamic == old(n.dynamic) && n.catchAll == old(n.catchAll)
      requires n.handlers == old(n.handlers)
      requires forall x :: x in old(nodes) && x.depth <= child.depth && x != child && x != n ==> unchanged(x)
      ensures Stands(n, nodes)
    {
    }

    /** Where a walk from `child` changed nodes below it only, and `n` has taken over its
        tree, all stand from `n` on. */
    twostate lemma ParentStands(new n: Node<T>, new child: Node<T>)
      requires n in old(nodes) && child in old(nodes) && child.parent == n && child.depth == n.depth + 1
      requires old(StandFrom(nodes, n.depth)) && Grown(child)
      requires Adopts(n, old(n.tree), child, n.tree) && StandFrom(nodes, child.depth)
      requires n.literal == old(n.literal) && n.dynamic == old(n.dynamic) && n.catchAll == old(n.catchAll)
      requires n.handlers == old(n.handlers)
      requires forall x :: x in old(nodes) && x.depth <= child.depth && x != child && x != n ==> unchanged(x)
      ensures StandFrom(nodes, n.depth)
    {
      AdopterStands(n, child);
      forall y | y in nodes && y.depth >= n.depth ensures Stands(y, nodes) {
        if y.depth == n.depth && y != n { StillStands(y); }
      }
    }
  }

  lemma LitHandlers<T>(t: Tree<T>, parts: Pattern, i: nat)
    requires parts != [] && parts[0].Lit? && i <= |t.literal|
    requires forall j :: 0 <= j < i ==> t.literal[j].text != parts[0].text
    requires i < |t.literal| ==> t.literal[i].text == parts[0].text
    ensures var child := if i < |t.literal| then t.literal[i].child else Leaf();
            HandlersAt(t, Effective(t, parts)) == HandlersAt(child, Effective(child, parts[1..]))
  {
    FindLitIs(t.literal, parts[0].text, i);
    EffectiveOfLeaf<T>(parts[1..]);
    LeafHoldsNothing<T>(parts[1..]);
  }

  lemma DynHandlers<T>(t: Tree<T>, parts: Pattern, i: nat)
    requires parts != [] && parts[0].Dyn? && i <= |t.dynamic|
    requires forall j :: 0 <= j < i ==> t.dynamic[j].name != parts[0].name
    requires i < |t.dynamic| ==> t.dynamic[i].name == parts[0].name
    ensures var child := if i < |t.dynamic| then t.dynamic[i].child else Leaf();
            HandlersAt(t, Effective(t, parts)) == HandlersAt(child, Effective(child, parts[1..]))
  {
    FindDynIs(t.dynamic, parts[0].name, i);
    EffectiveOfLeaf<T>(parts[1..]);
    LeafHoldsNothing<T>(parts[1..]);
  }
}
