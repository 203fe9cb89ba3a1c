/** Which route a lookup finds, told from the registrations alone: the order of the calls
    decides between two dynamic names, and the tree keeps to it. */
module RouterOrder {
  import opened Bytes
  import opened Routing
  import opened RoutingTable
  import opened RoutingResults
  import opened RouterRuns

  /** The call walks the path `p` of parts: its own path begins with them. */
  predicate Walks<T>(call: Call<T>, p: Pattern) { p <= PartsOf(call.path) }

  /** The first call that walks the path `p` of parts; as many as there are calls if
      none does. */
  function FirstWalk<T>(calls: seq<Call<T>>, p: Pattern): (n: nat)
    ensures n <= |calls|
    decreases |calls|
  {
    if calls == [] then 0
    else
      var last := |calls| - 1;
      var n := FirstWalk(calls[..last], p);
      if n < last || Walks(calls[last], p) then n else n + 1
  }

  lemma {:induction false} FirstWalkIs<T>(calls: seq<Call<T>>, p: Pattern)
    ensures var n := FirstWalk(calls, p);
            (forall i :: 0 <= i < n ==> !Walks(calls[i], p)) && (n < |calls| ==> Walks(calls[n], p))
    decreases |calls|
  {
    hide Walks;
    if calls != [] {
      var last := |calls| - 1;
      FirstWalkIs(calls[..last], p);
      assert forall i :: 0 <= i < last ==> calls[..last][i] == calls[i];
    }
  }

  predicate DivergeAt(p: Pattern, q: Pattern, k: int) {
    0 <= k < |p| && k < |q| && p[..k] == q[..k] && p[k] != q[k]
  }

  predicate EarlierAt<T>(calls: seq<Call<T>>, p: Pattern, q: Pattern, k: nat)
    requires k < |p| && k < |q|
  {
    || Kind(p[k]) < Kind(q[k])
    || (p[k].Dyn? && q[k].Dyn? && FirstWalk(calls, p[..k + 1]) < FirstWalk(calls, q[..k + 1]))
  }

  /** Where the two first differ: a literal before a parameter, of two parameters the one
      that a call walked first, the catch-all last. */
  ghost predicate Earlier<T>(calls: seq<Call<T>>, p: Pattern, q: Pattern) {
    exists k :: DivergeAt(p, q, k) && EarlierAt(calls, p, q, k)
  }

  // -- the order of the tree, at the position where two patterns part ------------------------

  lemma {:induction false} BeforeDiverges<T>(node: Tree<T>, p: Pattern, q: Pattern, k: nat)
    requires DivergeAt(p, q, k) && Claimed(node, p)
    ensures Before(node, p, q) <==>
            Kind(p[k]) < Kind(q[k]) || (p[k].Dyn? && q[k].Dyn? && Before(node, p[..k + 1], q[..k + 1]))
    decreases k
  {
    if k > 0 {
      assert p[..k][0] == p[0] && q[..k][0] == q[0];
      assert p[1..][..k - 1] == p[..k][1..] && q[1..][..k - 1] == q[..k][1..];
      assert p[..k + 1][1..] == p[1..][..k] && q[..k + 1][1..] == q[1..][..k];
      if !p[0].Rest? { BeforeDiverges(ChildOf(node, p[0]).value, p[1..], q[1..], k - 1); }
    }
  }

  lemma {:induction false} FindsDivergence(p: Pattern, q: Pattern) returns (k: nat)
    requires !(p <= q) && !(q <= p)
    ensures DivergeAt(p, q, k)
    decreases |p|
  {
    k := 0;
    if p[0] == q[0] {
      assert p[1..] <= q[1..] ==> p <= q;
      assert q[1..] <= p[1..] ==> q <= p;
      var j := FindsDivergence(p[1..], q[1..]);
      k := j + 1;
      assert p[..k] == [p[0]] + p[1..][..j] && q[..k] == [q[0]] + q[1..][..j];
    }
  }

  lemma {:induction false} PrefixesAreUnordered<T>(node: Tree<T>, p: Pattern, q: Pattern)
    requires p <= q || q <= p
    ensures !Before(node, p, q)
    decreases |p|
  {
    if p != [] && q != [] {
      assert p[0] == q[0];
      assert p[1..] <= q[1..] || q[1..] <= p[1..];
      if ChildOf(node, p[0]).Some? { PrefixesAreUnordered(ChildOf(node, p[0]).value, p[1..], q[1..]); }
    }
  }

  lemma OneDivergence(p: Pattern, q: Pattern, j: nat, k: nat)
    requires DivergeAt(p, q, j) && DivergeAt(p, q, k)
    ensures j == k
  {
    AlikeBelow(p, q, j);
    AlikeBelow(p, q, k);
  }

  lemma AlikeBelow(p: Pattern, q: Pattern, k: nat)
    requires DivergeAt(p, q, k)
    ensures forall i :: 0 <= i < k ==> p[i] == q[i]
  {
    forall i | 0 <= i < k ensures p[i] == q[i] {
      assert p[..k][i] == q[..k][i];
    }
  }

  // -- a walked path is in the tree ----------------------------------------------------------

  /** An insertion claims every path along its walk, and takes none away. */
  lemma {:induction false} InsertKeepsClaims<T>(node: Tree<T>, parts: Pattern, put: Option<Put<T>>, p: Pattern)
    requires WellFormed(parts) && (Claimed(node, p) || p <= Effective(node, parts))
    ensures Claimed(Insert(node, parts, put), p)
    decreases |parts|
  {
    if parts != [] && p != [] {
      assert p <= Effective(node, parts) ==> p[0] == Effective(node, parts)[0] && p[1..] <= Effective(node, parts)[1..];
      match parts[0]
      case Lit(text) =>
        if p[0].Lit? {
          InsertLitFinds(node.literal, parts, put, p[0].text);
          if p[0].text == text {
            var child := FindLit(node.literal, text);
            EffectiveOfLeaf<T>(parts[1..]);
            InsertKeepsClaims(if child.Some? then child.value else Leaf(), parts[1..], put, p[1..]);
          }
        }
      case Dyn(name, _) =>
        if p[0].Dyn? {
          InsertDynFinds(node.dynamic, parts, put, p[0].name);
          if p[0].name == name {
            var e := FindDyn(node.dynamic, name);
            EffectiveOfLeaf<T>(parts[1..]);
            InsertKeepsClaims(if e.Some? then e.value.child else Leaf(), parts[1..], put, p[1..]);
          }
        }
      case Rest(_) =>
    }
  }

  /** A registration is an insertion, whatever becomes of it. */
  lemma AddInserts<T>(r: Routes<T>, call: Call<T>) returns (put: Option<Put<T>>)
    ensures Add(r, call.verb, call.path, call.value).next.root == Insert(r.root, PartsOf(call.path), put)
  {
    var path := NormalizePath(call.path);
    put := if IsDynamic(path) && WalkOf(SplitPath(path)).refusal.None? then Some(Put(call.verb, call.value)) else None;
    hide WalkOf;
  }

  lemma FrontIsCoherent<T>(calls: seq<Call<T>>)
    requires Coherent(calls) && calls != []
    ensures Coherent(calls[..|calls| - 1])
  {
    var front := calls[..|calls| - 1];
    hide PartsOf, Agree;
    forall i, j | 0 <= i < |front| && 0 <= j < |front| ensures Agree(PartsOf(front[i].path), PartsOf(front[j].path)) {
      assert front[i] == calls[i] && front[j] == calls[j];
    }
  }

  /** What is known of the last of some coherent calls. */
  lemma LastCall<T>(calls: seq<Call<T>>) returns (put: Option<Put<T>>)
    requires Coherent(calls) && calls != []
    ensures var front, parts := calls[..|calls| - 1], PartsOf(calls[|calls| - 1].path);
            && Coherent(front) && WellFormed(parts) && Effective(Built(front).root, parts) == parts
            && Built(calls).root == Insert(Built(front).root, parts, put)
            && ClaimedByCalls(Built(front).root, front)
  {
    hide Mirrors, Add, WellFormed, Effective, Coherent, ClaimedByCalls, PartsOf, Insert;
    var front := calls[..|calls| - 1];
    FrontIsCoherent(calls);
    BuiltMirrors(front);
    CallIsDeclared(Built(front).root, calls, |front|);
    put := AddInserts(Built(front), calls[|calls| - 1]);
  }

  /** The paths of the tree are those that some call walked. */
  lemma {:induction false} ClaimedIffWalked<T>(calls: seq<Call<T>>, p: Pattern)
    requires Coherent(calls) && p != []
    ensures Claimed(Built(calls).root, p) <==> FirstWalk(calls, p) < |calls|
    decreases |calls|
  {
    hide Mirrors, Coherent, Claimed, Insert, PartsOf, Add, WellFormed, Effective;
    BuiltMirrors(calls);
    FirstWalkIs(calls, p);
    if Claimed(Built(calls).root, p) {
      assert WalkedBy(calls, p);
    }
    if calls != [] && FirstWalk(calls, p) < |calls| {
      var put := LastCall(calls);
      var front, parts := calls[..|calls| - 1], PartsOf(calls[|calls| - 1].path);
      WalkSnoc(calls, p);
      ClaimedIffWalked(front, p);
      InsertKeepsClaims(Built(front).root, parts, put, p);
    }
  }

  lemma WalkSnoc<T>(calls: seq<Call<T>>, p: Pattern)
    requires calls != []
    ensures var front, n := calls[..|calls| - 1], |calls| - 1;
            FirstWalk(calls, p) ==
              if FirstWalk(front, p) < n then FirstWalk(front, p)
              else if p <= PartsOf(calls[n].path) then n else n + 1
  {
  }

  /** One call walks one of two paths that part. */
  lemma WalksDiffer<T>(calls: seq<Call<T>>, p: Pattern, q: Pattern)
    requires |p| == |q| && p != q && FirstWalk(calls, p) < |calls|
    ensures FirstWalk(calls, p) != FirstWalk(calls, q)
  {
    hide PartsOf;
    FirstWalkIs(calls, p);
    FirstWalkIs(calls, q);
    OnePrefix(p, q, PartsOf(calls[FirstWalk(calls, p)].path));
  }

  lemma OnePrefix(p: Pattern, q: Pattern, parts: Pattern)
    requires |p| == |q| && p != q && p <= parts
    ensures !(q <= parts)
  {
    PrefixIsSlice(p, parts);
    PrefixIsSlice(q, parts);
  }

  lemma PrefixIsSlice(p: Pattern, parts: Pattern)
    ensures p <= parts <==> |p| <= |parts| && parts[..|p|] == p
  {
  }

  // -- two parameters at one position --------------------------------------------------------------

  /** The same path up to two different parameter names. */
  predicate Siblings(p: Pattern, q: Pattern) {
    && p != [] && |p| == |q| && p[..|p| - 1] == q[..|p| - 1]
    && p[|p| - 1].Dyn? && q[|p| - 1].Dyn? && p[|p| - 1].name != q[|p| - 1].name
  }

  lemma EffectiveOfDyn<T>(node: Tree<T>, parts: Pattern)
    requires parts != [] && parts[0].Dyn?
    ensures var e := FindDyn(node.dynamic, parts[0].name);
            e.Some? ==> Effective(node, parts)[0] == Dyn(parts[0].name, e.value.converter)
  {
  }

  lemma {:induction false} SiblingIsNewcomer<T>(node: Tree<T>, parts: Pattern, p: Pattern, q: Pattern)
    requires Siblings(p, q) && q <= parts && Effective(node, parts) == parts
    requires Claimed(node, p) && !Claimed(node, q)
    ensures Newcomer(node, p, q)
    decreases |p|
  {
    var k := |p| - 1;
    if k == 0 {
      EffectiveOfDyn(node, parts);
    } else {
      assert p[..k][0] == p[0] && q[..k][0] == q[0];
      assert p[..k][1..] == p[1..][..k - 1] && q[..k][1..] == q[1..][..k - 1];
      SiblingIsNewcomer(ChildOf(node, p[0]).value, parts[1..], p[1..], q[1..]);
    }
  }

  lemma {:induction false} SiblingsInOrder<T>(calls: seq<Call<T>>, p: Pattern, q: Pattern)
    requires Coherent(calls) && Siblings(p, q)
    requires Claimed(Built(calls).root, p) && Claimed(Built(calls).root, q)
    requires FirstWalk(calls, p) < FirstWalk(calls, q)
    ensures Before(Built(calls).root, p, q)
    decreases |calls|
  {
    hide Mirrors, Coherent, Claimed, Insert, PartsOf, Add, WellFormed, Effective, Before, Built, Newcomer, FirstWalk, Siblings;
    AreNotEmpty(p, q);
    ClaimedIffWalked(calls, p);
    ClaimedIffWalked(calls, q);
    var put := LastCall(calls);
    var front, parts := calls[..|calls| - 1], PartsOf(calls[|calls| - 1].path);
    var r := Built(front).root;
    WalkSnoc(calls, p);
    WalkSnoc(calls, q);
    ClaimedIffWalked(front, p);
    ClaimedIffWalked(front, q);
    if Claimed(r, q) {
      SiblingsInOrder(front, p, q);
    } else {
      SiblingIsNewcomer(r, parts, p, q);
      NewcomersComeLast(r, p, q);
    }
    PreferenceIsStable(r, parts, put, p, q);
  }

  lemma AreNotEmpty(p: Pattern, q: Pattern)
    requires Siblings(p, q)
    ensures p != [] && q != [] && p != q && |p| == |q| && Siblings(q, p)
  {
  }

  // -- the order of the tree is the order of the calls ---------------------------------------------

  lemma {:induction false} ClaimedPrefix<T>(node: Tree<T>, p: Pattern, k: nat)
    requires Claimed(node, p) && k <= |p|
    ensures Claimed(node, p[..k])
    decreases k
  {
    if k > 0 {
      assert p[..k][0] == p[0] && p[..k][1..] == p[1..][..k - 1];
      if p[0].Rest? {
        assert p[..k] == p;
      } else {
        ClaimedPrefix(ChildOf(node, p[0]).value, p[1..], k - 1);
      }
    }
  }

  /** Where two paths of the tree part with parameters, these have different names. */
  lemma {:induction false} ClaimedNamesDiffer<T>(node: Tree<T>, p: Pattern, q: Pattern, k: nat)
    requires Claimed(node, p) && Claimed(node, q) && DivergeAt(p, q, k) && p[k].Dyn? && q[k].Dyn?
    ensures p[k].name != q[k].name
    decreases k
  {
    if k > 0 {
      assert p[..k][0] == p[0] && q[..k][0] == q[0];
      assert p[..k][1..] == p[1..][..k - 1] && q[..k][1..] == q[1..][..k - 1];
      ClaimedNamesDiffer(ChildOf(node, p[0]).value, p[1..], q[1..], k - 1);
    }
  }

  lemma PartedAreSiblings<T>(node: Tree<T>, p: Pattern, q: Pattern, k: nat)
    requires Claimed(node, p) && Claimed(node, q) && DivergeAt(p, q, k) && p[k].Dyn? && q[k].Dyn?
    ensures Siblings(p[..k + 1], q[..k + 1]) && Siblings(q[..k + 1], p[..k + 1])
    ensures Claimed(node, p[..k + 1]) && Claimed(node, q[..k + 1])
  {
    ClaimedNamesDiffer(node, p, q, k);
    ClaimedPrefix(node, p, k + 1);
    ClaimedPrefix(node, q, k + 1);
    assert p[..k + 1][..k] == p[..k] && q[..k + 1][..k] == q[..k];
  }

  /** For the paths of the tree that any coherent calls build: one comes before another in
      the search if and only if it is earlier by the order of the calls. */
  lemma BeforeIffEarlier<T>(calls: seq<Call<T>>, p: Pattern, q: Pattern)
    requires Coherent(calls) && Claimed(Built(calls).root, p) && Claimed(Built(calls).root, q)
    ensures Before(Built(calls).root, p, q) <==> Earlier(calls, p, q)
  {
    hide Coherent, Claimed, Built, PartsOf, Before, FirstWalk, Siblings;
    var root := Built(calls).root;
    if p <= q || q <= p {
      PrefixesAreUnordered(root, p, q);
      PrefixesDoNotDiverge(p, q);
    } else {
      var k := FindsDivergence(p, q);
      BeforeDiverges(root, p, q, k);
      if p[k].Dyn? && q[k].Dyn? {
        PartedAreSiblings(root, p, q, k);
        SiblingsBeforeIff(calls, p[..k + 1], q[..k + 1]);
      }
      EarlierIsAt(calls, p, q, k);
    }
  }

  lemma PrefixesDoNotDiverge(p: Pattern, q: Pattern)
    requires p <= q || q <= p
    ensures forall k :: !DivergeAt(p, q, k)
  {
  }

  lemma EarlierIsAt<T>(calls: seq<Call<T>>, p: Pattern, q: Pattern, k: nat)
    requires DivergeAt(p, q, k)
    ensures Earlier(calls, p, q) <==> EarlierAt(calls, p, q, k)
  {
    if Earlier(calls, p, q) {
      var j :| DivergeAt(p, q, j) && EarlierAt(calls, p, q, j);
      OneDivergence(p, q, j, k);
    }
  }

  lemma SiblingsBeforeIff<T>(calls: seq<Call<T>>, p: Pattern, q: Pattern)
    requires Coherent(calls) && Siblings(p, q)
    requires Claimed(Built(calls).root, p) && Claimed(Built(calls).root, q)
    ensures Before(Built(calls).root, p, q) <==> FirstWalk(calls, p) < FirstWalk(calls, q)
  {
    hide Coherent, Claimed, Built, PartsOf, Before, FirstWalk, Siblings;
    AreNotEmpty(p, q);
    ClaimedIffWalked(calls, p);
    WalksDiffer(calls, p, q);
    if FirstWalk(calls, p) < FirstWalk(calls, q) {
      SiblingsInOrder(calls, p, q);
    } else {
      SiblingsInOrder(calls, q, p);
      BeforeIsAsymmetric(Built(calls).root, q, p);
    }
  }

  // -- lookups ------------------------------------------------------------------------------------

  lemma {:induction false} RegisteredIsClaimed<T>(node: Tree<T>, p: Pattern)
    requires HandlersAt(node, p) != map[]
    ensures Claimed(node, p)
    decreases |p|
  {
    if p != [] && !p[0].Rest? { RegisteredIsClaimed(ChildOf(node, p[0]).value, p[1..]); }
  }

  /** `q` was registered, takes the path, and is earlier than every other registered
      pattern that does. */
  ghost predicate Preferred<T>(calls: seq<Call<T>>, accepts: Accepts, q: Pattern, segments: seq<string>) {
    && At(Registered(calls), Dynamic(q)) != map[] && Takes(accepts, q, segments)
    && forall p :: At(Registered(calls), Dynamic(p)) != map[] && Takes(accepts, p, segments) && p != q ==>
         Earlier(calls, q, p)
  }

  lemma ChosenIsPreferred<T>(calls: seq<Call<T>>, accepts: Accepts, q: Pattern, segments: seq<string>)
    requires Coherent(calls) && Mirrors(Built(calls), Registered(calls))
    requires IsChosen(accepts, Built(calls).root, q, segments)
    ensures Preferred(calls, accepts, q, segments)
  {
    hide Registered, Built, HandlersAt, Before, Unique, MatchPattern, Coherent, Earlier, Claimed, Takes;
    var root := Built(calls).root;
    RegisteredIsClaimed(root, q);
    forall p | At(Registered(calls), Dynamic(p)) != map[] && Takes(accepts, p, segments) && p != q
      ensures Earlier(calls, q, p)
    {
      assert HandlersAt(root, p) != map[];
      RegisteredIsClaimed(root, p);
      BeforeIffEarlier(calls, q, p);
    }
  }

  /** After any registrations in which names and converters are coherent, a lookup is a
      scan of the flat table: a static path first; then nothing exactly when no
      registered pattern takes the path; otherwise the preferred one that does, with all
      its handlers and what it captures. */
  lemma LookupIsLinearScan<T>(calls: seq<Call<T>>, accepts: Accepts, path: string)
    requires Coherent(calls)
    ensures var table, segments := Registered(calls), SplitPath(path);
            var fixed := At(table, Static(NormalizePath(path)));
            match Resolve(Built(calls), accepts, path)
            case None =>
              fixed == map[] && forall q :: At(table, Dynamic(q)) != map[] ==> !Takes(accepts, q, segments)
            case Some(found) =>
              if fixed != map[] then found == Found(fixed, map[])
              else exists q ::
                && Preferred(calls, accepts, q, segments)
                && found == Found(At(table, Dynamic(q)), MatchPattern(accepts, q, segments, map[]).value)
  {
    hide Registered, Built, Match, HandlersAt, Before, Unique, MatchPattern, Coherent, ClaimedByCalls;
    BuiltMirrors(calls);
    var r, segments := Built(calls), SplitPath(path);
    SearchFindsTheChosen(accepts, r.root, segments);
    if Resolve(r, accepts, path).Some? && At(Registered(calls), Static(NormalizePath(path))) == map[] {
      var q :| IsChosen(accepts, r.root, q, segments)
               && Resolve(r, accepts, path).value == Found(HandlersAt(r.root, q), MatchPattern(accepts, q, segments, map[]).value);
      ChosenIsPreferred(calls, accepts, q, segments);
    }
  }
}
