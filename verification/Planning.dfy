/**
  Snapshots of the graph and the build plan: the post-order of a depth-first walk from the targets.
 */
module Planning {
  import opened Words
  import opened Walks
  import opened BuildGraphs

  datatype GraphSnapshot = GraphSnapshot(
    generation: nat, nextNode: nat, nodes: map<NodeId, BuildNode>, edges: seq<Edge>)

  predicate Ascending(s: seq<NodeId>) {
    forall i, j :: 0 <= i < j < |s| ==> s[i] < s[j]
  }

  /** Insertion into an ordered set, kept as its ascending list. */
  function Insert(s: seq<NodeId>, x: NodeId): seq<NodeId> {
    if s == [] || x < s[0] then [x] + s
    else if x == s[0] then s
    else [s[0]] + Insert(s[1..], x)
  }

  lemma {:induction false} InsertKeepsOrder(s: seq<NodeId>, x: NodeId)
    requires Ascending(s)
    ensures Ascending(Insert(s, x)) && forall n :: n in Insert(s, x) <==> n in s || n == x
  {
    if s == [] || x < s[0] {
      PrependAscends(x, s);
    } else if x != s[0] {
      var rest := s[1..];
      assert s == [s[0]] + rest;
      InsertKeepsOrder(rest, x);
      forall n | n in Insert(rest, x)
        ensures s[0] < n
      {
        if n != x {
          var i :| 0 <= i < |rest| && rest[i] == n;
          assert s[0] < s[i + 1];
        }
      }
      PrependAscends(s[0], Insert(rest, x));
    }
  }

  lemma PrependAscends(x: NodeId, s: seq<NodeId>)
    requires Ascending(s) && forall n :: n in s ==> x < n
    ensures Ascending([x] + s)
  {
    var r := [x] + s;
    forall i, j | 0 <= i < j < |r|
      ensures r[i] < r[j]
    {
      assert r[j] == s[j - 1] && r[j] in s;
      if i > 0 {
        assert r[i] == s[i - 1];
      }
    }
  }

  /** The targets of the edges leaving `node`, in ascending order without repetition. */
  method Dependencies(g: GraphSnapshot, node: NodeId) returns (deps: seq<NodeId>)
    ensures Ascending(deps) && forall n :: n in deps <==> HasEdge(g.edges, node, n)
  {
    deps := [];
    for i := 0 to |g.edges|
      invariant Ascending(deps)
      invariant forall n :: n in deps <==> exists k :: 0 <= k < i && g.edges[k].from == node && g.edges[k].to == n
    {
      if g.edges[i].from == node {
        InsertKeepsOrder(deps, g.edges[i].to);
        deps := Insert(deps, g.edges[i].to);
      }
    }
  }

  method ReverseDependencies(g: GraphSnapshot, node: NodeId) returns (deps: seq<NodeId>)
    ensures Ascending(deps) && forall n :: n in deps <==> HasEdge(g.edges, n, node)
  {
    deps := [];
    for i := 0 to |g.edges|
      invariant Ascending(deps)
      invariant forall n :: n in deps <==> exists k :: 0 <= k < i && g.edges[k].to == node && g.edges[k].from == n
    {
      if g.edges[i].to == node {
        InsertKeepsOrder(deps, g.edges[i].from);
        deps := Insert(deps, g.edges[i].from);
      }
    }
  }

  // ---- The plan ----

  ghost predicate IsPlan(es: seq<Edge>, targets: seq<NodeId>, order: seq<NodeId>) {
    && Distinct(order)
    && (forall n :: n in order <==> ReachedFrom(es, targets, n))
    && (!Cyclic(es) ==> DependenciesFirst(es, order))
  }

  ghost predicate ReachedFrom(es: seq<Edge>, targets: seq<NodeId>, n: NodeId) {
    exists t :: t in targets && Reaches(es, t, n)
  }

  // ---- In which order, without a cycle ----

  /** The dependencies of a node, ascending. */
  ghost predicate DepsOf(es: seq<Edge>, n: NodeId, ds: seq<NodeId>) {
    Ascending(ds) && forall d :: d in ds <==> HasEdge(es, n, d)
  }

  /** A node that is listed changes nothing; any other is listed after its dependencies, the smallest first. */
  ghost predicate Lists(es: seq<Edge>, before: seq<NodeId>, n: NodeId, after: seq<NodeId>)
    decreases |after| - |before|, 0
  {
    if n in before then after == before else
    && |before| < |after| && after[|after| - 1] == n
    && exists ds :: DepsOf(es, n, ds) && ListsAll(es, before, ds, after[..|after| - 1])
  }

  ghost predicate ListsAll(es: seq<Edge>, before: seq<NodeId>, ns: seq<NodeId>, after: seq<NodeId>)
    decreases |after| - |before|, 1 + |ns|
  {
    if ns == [] then after == before else
    exists mid ::
      && |before| <= |mid| <= |after|
      && ListsAll(es, before, ns[..|ns| - 1], mid) && Lists(es, mid, ns[|ns| - 1], after)
  }

  lemma {:induction false} AscendingUnique(s: seq<NodeId>, t: seq<NodeId>)
    requires Ascending(s) && Ascending(t) && forall n :: n in s <==> n in t
    ensures s == t
    decreases |s|
  {
    if s == [] {
      if t != [] {
        HasFirst(t);
      }
    } else {
      assert s[0] in t && t != [] && t[0] in s;
      var i :| 0 <= i < |t| && t[i] == s[0];
      var j :| 0 <= j < |s| && s[j] == t[0];
      assert s[0] == t[0];
      var u, v := s[1..], t[1..];
      forall n
        ensures n in u <==> n in v
      {
        TailMembers(s, n);
        TailMembers(t, n);
      }
      AscendingUnique(u, v);
      assert s == [s[0]] + u && t == [t[0]] + v;
    }
  }

  lemma HasFirst(s: seq<NodeId>)
    requires s != []
    ensures exists n :: n in s
  {
    assert s[0] in s;
  }

  lemma TailMembers(s: seq<NodeId>, n: NodeId)
    requires s != [] && Ascending(s)
    ensures n in s[1..] <==> n in s && n != s[0]
  {
    assert s == [s[0]] + s[1..];
    if n in s[1..] {
      var i :| 0 <= i < |s[1..]| && s[1..][i] == n;
      assert s[i + 1] == n;
    }
  }

  /** So there is only one such order. */
  lemma {:induction false} ListsUnique(
      es: seq<Edge>, before: seq<NodeId>, n: NodeId, a: seq<NodeId>, b: seq<NodeId>)
    requires Lists(es, before, n, a) && Lists(es, before, n, b)
    ensures a == b
    decreases |a| - |before|, 0
  {
    hide HasEdge;
    if n !in before {
      var x, y := a[..|a| - 1], b[..|b| - 1];
      var ds :| DepsOf(es, n, ds) && ListsAll(es, before, ds, x);
      var fs :| DepsOf(es, n, fs) && ListsAll(es, before, fs, y);
      AscendingUnique(ds, fs);
      ListsAllUnique(es, before, ds, x, y);
      assert a == x + [n] && b == y + [n];
    }
  }

  lemma {:induction false} ListsAllUnique(
      es: seq<Edge>, before: seq<NodeId>, ns: seq<NodeId>, a: seq<NodeId>, b: seq<NodeId>)
    requires ListsAll(es, before, ns, a) && ListsAll(es, before, ns, b)
    ensures a == b
    decreases |a| - |before|, 1 + |ns|
  {
    hide HasEdge;
    if ns != [] {
      var front, n := ns[..|ns| - 1], ns[|ns| - 1];
      var x :| |before| <= |x| <= |a| && ListsAll(es, before, front, x) && Lists(es, x, n, a);
      var y :| |before| <= |y| <= |b| && ListsAll(es, before, front, y) && Lists(es, y, n, b);
      ListsAllUnique(es, before, front, x, y);
      ListsUnique(es, x, n, a, b);
    }
  }

  lemma ListsNothing(es: seq<Edge>, before: seq<NodeId>)
    ensures ListsAll(es, before, [], before)
  {
  }

  lemma ListsSnoc(
      es: seq<Edge>, before: seq<NodeId>, ns: seq<NodeId>, mid: seq<NodeId>, n: NodeId, after: seq<NodeId>)
    requires ListsAll(es, before, ns, mid) && Lists(es, mid, n, after) && before <= mid <= after
    ensures ListsAll(es, before, ns + [n], after)
  {
    hide Lists;
    var all := ns + [n];
    assert all[..|all| - 1] == ns && all[|all| - 1] == n;
  }

  lemma ListsNode(es: seq<Edge>, before: seq<NodeId>, n: NodeId, ds: seq<NodeId>, mid: seq<NodeId>)
    requires n !in before && DepsOf(es, n, ds) && ListsAll(es, before, ds, mid) && before <= mid
    ensures Lists(es, before, n, mid + [n])
  {
    hide ListsAll, DepsOf;
    var after := mid + [n];
    assert after[..|after| - 1] == mid;
  }

  datatype Walk = Walk(seen: set<NodeId>, order: seq<NodeId>)

  /** The nodes whose visit has begun but not ended. */
  function Pending(w: Walk): set<NodeId> {
    w.seen - set n | n in w.order
  }

  /** The plan so far lists seen nodes once, and dependencies of listed nodes are seen. */
  ghost predicate Sound(es: seq<Edge>, universe: set<NodeId>, w: Walk) {
    && w.seen <= universe && Distinct(w.order)
    && (forall n :: n in w.order ==> n in w.seen)
    && (forall n, d :: n in w.order && HasEdge(es, n, d) ==> d in w.seen)
    && (!Cyclic(es) ==> DependenciesFirst(es, w.order))
  }

  /** What a visit has done: it added only what `node` reaches, and ended all it began. */
  ghost predicate Visited(es: seq<Edge>, node: NodeId, before: Walk, after: Walk) {
    && before.seen <= after.seen && before.order <= after.order
    && Pending(after) == Pending(before)
    && (forall n :: n in after.seen && n !in before.seen ==> Reaches(es, node, n))
  }

  /** During the visit of `node`, begun from `w0`: only nodes it reaches are new, and it alone is newly pending. */
  ghost predicate Visiting(es: seq<Edge>, universe: set<NodeId>, node: NodeId, w0: Walk, w: Walk) {
    && Sound(es, universe, w)
    && w0.seen + {node} <= w.seen && w0.order <= w.order && Pending(w) == Pending(w0) + {node}
    && (forall n :: n in w.seen && n !in w0.seen ==> Reaches(es, node, n))
  }

  /**
    Visits a node all of whose pending ancestors reach it. In an acyclic graph a dependency that was
    seen before cannot be one of them, so it is already listed.
   */
  method Visit(g: GraphSnapshot, ghost universe: set<NodeId>, node: NodeId, w0: Walk) returns (w: Walk)
    requires Sound(g.edges, universe, w0) && node in universe
    requires forall n, d :: n in universe && HasEdge(g.edges, n, d) ==> d in universe
    requires forall p :: p in Pending(w0) ==> Reaches(g.edges, p, node)
    ensures Sound(g.edges, universe, w) && node in w.seen
    ensures Visited(g.edges, node, w0, w)
    ensures !Cyclic(g.edges) && node in w.order ==> Lists(g.edges, w0.order, node, w.order)
    decreases |universe - w0.seen|
  {
    hide HasEdge, Reaches, Cyclic, Visiting, Sound, Visited, Pending, Lists, ListsAll;
    if node in w0.seen {
      NothingVisited(g.edges, node, w0);
      ListedStays(g.edges, w0.order, node);
      return w0;
    }
    NotListed(g.edges, universe, node, w0);
    ListsNothing(g.edges, w0.order);
    w := Walk(w0.seen + {node}, w0.order);
    VisitBegins(g.edges, universe, node, w0);
    var deps := Dependencies(g, node);
    for i := 0 to |deps|
      invariant Visiting(g.edges, universe, node, w0, w)
      invariant forall k :: 0 <= k < i ==> deps[k] in w.seen && (!Cyclic(g.edges) ==> deps[k] in w.order)
      invariant w0.order <= w.order && (!Cyclic(g.edges) ==> ListsAll(g.edges, w0.order, deps[..i], w.order))
    {
      var dep := deps[i];
      assert HasEdge(g.edges, node, dep);
      DescentAllowed(g.edges, universe, node, dep, w0, w);
      ghost var before := w;
      w := Visit(g, universe, dep, w);
      DescentReturns(g.edges, universe, node, dep, w0, before, w);
      assert deps[..i + 1] == deps[..i] + [dep];
      if !Cyclic(g.edges) {
        ListsSnoc(g.edges, w0.order, deps[..i], before.order, dep, w.order);
      }
    }
    assert deps[..|deps|] == deps;
    if !Cyclic(g.edges) {
      ListsNode(g.edges, w0.order, node, deps, w.order);
    }
    VisitEnds(g.edges, universe, node, deps, w0, w);
    w := w.(order := w.order + [node]);
  }

  lemma ListedStays(es: seq<Edge>, order: seq<NodeId>, n: NodeId)
    ensures n in order ==> Lists(es, order, n, order)
  {
  }

  lemma NotListed(es: seq<Edge>, universe: set<NodeId>, node: NodeId, w: Walk)
    requires Sound(es, universe, w) && node !in w.seen
    ensures node !in w.order
  {
  }

  lemma NothingVisited(es: seq<Edge>, node: NodeId, w: Walk)
    ensures Visited(es, node, w, w)
  {
  }

  lemma VisitBegins(es: seq<Edge>, universe: set<NodeId>, node: NodeId, w0: Walk)
    requires Sound(es, universe, w0) && node in universe && node !in w0.seen
    ensures Visiting(es, universe, node, w0, Walk(w0.seen + {node}, w0.order))
  {
    hide Reaches, HasEdge, Cyclic, DependenciesFirst;
    ReachesSelf(es, node);
    var w := Walk(w0.seen + {node}, w0.order);
    assert Pending(w) == Pending(w0) + {node};
  }

  /** What a nested visit needs. */
  lemma DescentAllowed(es: seq<Edge>, universe: set<NodeId>, node: NodeId, dep: NodeId, w0: Walk, w: Walk)
    requires Visiting(es, universe, node, w0, w) && HasEdge(es, node, dep) && node !in w0.seen
    requires forall p :: p in Pending(w0) ==> Reaches(es, p, node)
    ensures Sound(es, universe, w)
    ensures forall p :: p in Pending(w) ==> Reaches(es, p, dep)
    ensures |universe - w.seen| < |universe - w0.seen|
  {
    hide Reaches, HasEdge, Cyclic, DependenciesFirst, Pending;
    ReachesSelf(es, node);
    PendingReach(es, Pending(w), node, dep);
    SubsetSize(universe - w.seen, universe - w0.seen - {node});
    assert node in universe - w0.seen;
  }

  /** What a nested visit gives. */
  lemma DescentReturns(
      es: seq<Edge>, universe: set<NodeId>, node: NodeId, dep: NodeId, w0: Walk, before: Walk, after: Walk)
    requires Visiting(es, universe, node, w0, before) && HasEdge(es, node, dep)
    requires Sound(es, universe, after) && Visited(es, dep, before, after) && dep in after.seen
    requires forall p :: p in Pending(w0) ==> Reaches(es, p, node)
    ensures Visiting(es, universe, node, w0, after)
    ensures before.seen <= after.seen && before.order <= after.order
    ensures !Cyclic(es) ==> dep in after.order
  {
    hide Reaches, HasEdge, Cyclic, DependenciesFirst;
    SeenThrough(es, node, dep, before, after);
    if dep !in after.order {
      assert dep in Pending(after);
      ReachesSelf(es, node);
      StepBackCloses(es, dep, node);
    }
  }

  lemma VisitEnds(es: seq<Edge>, universe: set<NodeId>, node: NodeId, deps: seq<NodeId>, w0: Walk, w: Walk)
    requires Visiting(es, universe, node, w0, w) && node !in w0.seen
    requires forall n :: n in deps <==> HasEdge(es, node, n)
    requires forall k :: 0 <= k < |deps| ==> deps[k] in w.seen && (!Cyclic(es) ==> deps[k] in w.order)
    ensures var w' := w.(order := w.order + [node]);
      Sound(es, universe, w') && node in w'.seen && Visited(es, node, w0, w')
  {
    hide Reaches, HasEdge, Cyclic, DependenciesFirst;
    assert node in Pending(w);
    NodeEnds(es, universe, node, deps, w);
    var w' := w.(order := w.order + [node]);
    assert node !in Pending(w0);
    assert Pending(w') == Pending(w0);
  }

  lemma PendingReach(es: seq<Edge>, pending: set<NodeId>, node: NodeId, dep: NodeId)
    requires forall p :: p in pending ==> Reaches(es, p, node)
    requires HasEdge(es, node, dep)
    ensures forall p :: p in pending ==> Reaches(es, p, dep)
  {
    hide Reaches, HasEdge;
    forall p | p in pending
      ensures Reaches(es, p, dep)
    {
      ReachesThenStep(es, p, node, dep);
    }
  }

  lemma SeenThrough(es: seq<Edge>, node: NodeId, dep: NodeId, before: Walk, after: Walk)
    requires HasEdge(es, node, dep) && Visited(es, dep, before, after)
    ensures forall n :: n in after.seen && n !in before.seen ==> Reaches(es, node, n)
  {
    hide Reaches, HasEdge;
    forall n | n in after.seen && n !in before.seen
      ensures Reaches(es, node, n)
    {
      ReachesStep(es, node, dep, n);
    }
  }

  lemma NodeEnds(es: seq<Edge>, universe: set<NodeId>, node: NodeId, deps: seq<NodeId>, w: Walk)
    requires Sound(es, universe, w) && node in w.seen && node !in w.order
    requires forall n :: n in deps <==> HasEdge(es, node, n)
    requires forall n :: n in deps ==> n in w.seen && (!Cyclic(es) ==> n in w.order)
    ensures Sound(es, universe, w.(order := w.order + [node]))
  {
    hide Cyclic;
    forall k | 0 <= k < |es| && es[k].from == node
      ensures es[k].to in deps
    {
      assert HasEdge(es, node, es[k].to);
    }
    if !Cyclic(es) {
      FirstExtends(es, w.order, node);
    }
  }

  /** The plan, or nothing if a target is unknown. */
  method PlanOrder(g: GraphSnapshot, targets: seq<NodeId>) returns (order: Option<seq<NodeId>>)
    requires forall n :: n in g.nodes <==> 1 <= n < g.nextNode
    requires forall k :: 0 <= k < |g.edges| ==> g.edges[k].from in g.nodes && g.edges[k].to in g.nodes
    ensures order.None? <==> exists t :: t in targets && t !in g.nodes
    ensures order.Some? ==> IsPlan(g.edges, targets, order.value)
    ensures order.Some? && !Cyclic(g.edges) ==> ListsAll(g.edges, [], targets, order.value)
  {
    hide HasEdge, Reaches, Cyclic, DependenciesFirst, Lists, ListsAll;
    ghost var universe := g.nodes.Keys;
    var w := Walk({}, []);
    NothingPlanned(g.edges, universe);
    ListsNothing(g.edges, []);
    EdgesStayInside(g.edges, universe);
    for i := 0 to |targets|
      invariant Sound(g.edges, universe, w) && Pending(w) == {}
      invariant forall k :: 0 <= k < i ==> targets[k] in w.seen && targets[k] in g.nodes
      invariant forall n :: n in w.seen ==> ReachedFrom(g.edges, targets, n)
      invariant !Cyclic(g.edges) ==> ListsAll(g.edges, [], targets[..i], w.order)
    {
      if targets[i] !in g.nodes {
        return None;
      }
      ghost var before := w;
      w := Visit(g, universe, targets[i], w);
      forall n | n in w.seen && n !in before.seen
        ensures ReachedFrom(g.edges, targets, n)
      {
        assert targets[i] in targets && Reaches(g.edges, targets[i], n);
      }
      assert targets[..i + 1] == targets[..i] + [targets[i]];
      assert targets[i] in w.order by { assert targets[i] !in Pending(w); }
      if !Cyclic(g.edges) {
        ListsSnoc(g.edges, [], targets[..i], before.order, targets[i], w.order);
      }
    }
    assert targets[..|targets|] == targets;
    PlanComplete(g.edges, universe, targets, w);
    order := Some(w.order);
  }

  lemma NothingPlanned(es: seq<Edge>, universe: set<NodeId>)
    ensures Sound(es, universe, Walk({}, []))
  {
  }

  lemma EdgesStayInside(es: seq<Edge>, universe: set<NodeId>)
    requires forall k :: 0 <= k < |es| ==> es[k].to in universe
    ensures forall n, d :: n in universe && HasEdge(es, n, d) ==> d in universe
  {
  }

  lemma PlanComplete(es: seq<Edge>, universe: set<NodeId>, targets: seq<NodeId>, w: Walk)
    requires Sound(es, universe, w) && Pending(w) == {}
    requires forall t :: t in targets ==> t in w.seen
    requires forall n :: n in w.seen ==> ReachedFrom(es, targets, n)
    ensures IsPlan(es, targets, w.order)
  {
    hide Cyclic, DependenciesFirst;
    forall n | n in w.seen
      ensures n in w.order
    {
      assert n !in Pending(w);
    }
    forall k | 0 <= k < |es| && es[k].from in w.seen
      ensures es[k].to in w.seen
    {
      assert HasEdge(es, es[k].from, es[k].to);
    }
    forall n, t | t in targets && Reaches(es, t, n)
      ensures n in w.seen
    {
      var p :| WalkFromTo(es, p, t, n);
      ClosedContainsWalk(es, w.seen, p);
    }
  }

  /** The reverse closure of one node and the plan for one target are two views of reachability. */
  lemma ClosurePlanDuality(es: seq<Edge>, s: NodeId, n: NodeId, reached: set<NodeId>, order: seq<NodeId>)
    requires IsReverseClosure(es, {s}, reached) && IsPlan(es, [n], order)
    ensures n in reached <==> s in order
  {
    hide Reaches, Cyclic, DependenciesFirst;
    assert LeadsTo(es, n, {s}) <==> Reaches(es, n, s);
    assert ReachedFrom(es, [n], s) <==> Reaches(es, n, s) by {
      assert n in [n];
    }
  }

  /** The reverse closure is forward reachability once every edge is turned round. */
  lemma ReverseClosureIsForward(es: seq<Edge>, seeds: seq<NodeId>, reached: set<NodeId>, n: NodeId)
    requires IsReverseClosure(es, (set s | s in seeds), reached)
    ensures n in reached <==> ReachedFrom(Transposed(es), seeds, n)
  {
    hide Reaches;
    var all := set s | s in seeds;
    forall s
      ensures Reaches(Transposed(es), s, n) <==> Reaches(es, n, s)
    {
      TransposedReaches(es, s, n);
    }
    assert LeadsTo(es, n, all) <==> exists s :: s in all && Reaches(es, n, s);
  }
}
