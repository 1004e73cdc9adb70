/**
  The build graph: its mutations and reverse reachability.

  `std::map` is iterated in key order. Node ids are exactly 1 .. nextNode - 1, so counting visits
  them in order; edges are kept as the list of their entries, which ids keep sorted.
 */
module BuildGraphs {
  import opened Words
  import opened Digests
  import opened Actions
  import opened Walks

  datatype NodeState = Clean | Dirty | Building | Broken

  /** `lastActionKey` starts as zero and nothing writes it. */
  datatype BuildNode = BuildNode(
    id: NodeId, generation: nat, name: Str, action: ActionSpec, state: NodeState, lastActionKey: Digest)

  const NO_KEY := Digest(0, 0, 0, 0)

  datatype CycleWitness = CycleWitness(nodes: seq<NodeId>, edges: seq<EdgeId>)

  datatype Color = White | Gray | Black

  /** Edges are sorted by id, join known nodes, and no two agree in both ends and kind. */
  ghost predicate GoodEdges(es: seq<Edge>, nextNode: nat, nextEdge: nat) {
    && (forall i :: 0 <= i < |es| ==>
          1 <= es[i].from < nextNode && 1 <= es[i].to < nextNode && 1 <= es[i].id < nextEdge)
    && (forall i, j :: 0 <= i < j < |es| ==> es[i].id < es[j].id)
    && (forall i, j :: 0 <= i < j < |es| ==> !SameEdge(es[i], es[j].from, es[j].to, es[j].kind))
  }

  predicate SameEdge(e: Edge, from: NodeId, to: NodeId, kind: EdgeKind) {
    e.from == from && e.to == to && e.kind == kind
  }

  function WithoutDiscovered(es: seq<Edge>, from: NodeId): (r: seq<Edge>)
    ensures forall e :: e in r <==> e in es && !(e.from == from && e.kind == Discovered)
  {
    if es == [] then [] else
    var last, front := es[|es| - 1], WithoutDiscovered(es[..|es| - 1], from);
    assert es == es[..|es| - 1] + [last];
    if last.from == from && last.kind == Discovered then front else front + [last]
  }

  /** Exactly the discovered edges leaving the node are missing. */
  lemma {:induction false} WithoutDiscoveredIs(es: seq<Edge>, from: NodeId)
    ensures forall e :: e in WithoutDiscovered(es, from) <==> e in es && !(e.from == from && e.kind == Discovered)
  {
    if es != [] {
      WithoutDiscoveredIs(es[..|es| - 1], from);
      assert es == es[..|es| - 1] + [es[|es| - 1]];
    }
  }

  lemma {:induction false} WithoutDiscoveredGood(es: seq<Edge>, from: NodeId, nextNode: nat, nextEdge: nat)
    requires GoodEdges(es, nextNode, nextEdge)
    ensures GoodEdges(WithoutDiscovered(es, from), nextNode, nextEdge)
  {
    hide GoodEdges;
    if es != [] {
      var start, last := es[..|es| - 1], es[|es| - 1];
      LastEdgeGood(es, nextNode, nextEdge);
      WithoutDiscoveredGood(start, from, nextNode, nextEdge);
      var front := WithoutDiscovered(start, from);
      forall i | 0 <= i < |front|
        ensures front[i] in start
      {
        assert front[i] in front;
      }
      AppendedGood(start, front, last, nextNode, nextEdge);
    }
  }

  lemma LastEdgeGood(es: seq<Edge>, nextNode: nat, nextEdge: nat)
    requires GoodEdges(es, nextNode, nextEdge) && es != []
    ensures GoodEdges(es[..|es| - 1], nextNode, nextEdge)
    ensures GoodAfter(es[..|es| - 1], es[|es| - 1], nextNode, nextEdge)
  {
  }

  /** `e` may follow `es`. */
  ghost predicate GoodAfter(es: seq<Edge>, e: Edge, nextNode: nat, nextEdge: nat) {
    && 1 <= e.from < nextNode && 1 <= e.to < nextNode && 1 <= e.id < nextEdge
    && forall i :: 0 <= i < |es| ==> es[i].id < e.id && !SameEdge(es[i], e.from, e.to, e.kind)
  }

  lemma AppendedGood(start: seq<Edge>, front: seq<Edge>, last: Edge, nextNode: nat, nextEdge: nat)
    requires GoodEdges(front, nextNode, nextEdge) && GoodAfter(start, last, nextNode, nextEdge)
    requires forall i :: 0 <= i < |front| ==> front[i] in start
    ensures GoodEdges(front + [last], nextNode, nextEdge)
  {
  }

  /** Ids are the map's keys, 1 .. nextNode - 1, and names are not empty and unique. */
  ghost predicate GoodNodes(nodes: map<NodeId, BuildNode>, nextNode: nat) {
    && (forall n :: n in nodes <==> 1 <= n < nextNode)
    && (forall n :: n in nodes ==> nodes[n].id == n && nodes[n].name != [])
    && (forall m, n :: m in nodes && n in nodes && nodes[m].name == nodes[n].name ==> m == n)
  }

  lemma NodePutGood(nodes: map<NodeId, BuildNode>, nextNode: nat, n: NodeId, node: BuildNode)
    requires GoodNodes(nodes, nextNode) && node.id == n && node.name != [] && nextNode >= 1
    requires
      || (n in nodes && nodes[n].name == node.name)
      || (n == nextNode && forall m :: m in nodes ==> nodes[m].name != node.name)
    ensures GoodNodes(nodes[n := node], if n in nodes then nextNode else nextNode + 1)
  {
  }

  lemma NodesKnown(nodes: map<NodeId, BuildNode>, nextNode: nat)
    requires GoodNodes(nodes, nextNode)
    ensures forall n :: n in nodes <==> 1 <= n < nextNode
    ensures forall n :: n in nodes ==> nodes[n].id == n
  {
  }

  lemma EdgeAddedGood(es: seq<Edge>, nextNode: nat, nextEdge: nat, e: Edge)
    requires GoodEdges(es, nextNode, nextEdge) && 1 <= e.from < nextNode && 1 <= e.to < nextNode
    requires e.id == nextEdge >= 1 && forall i :: 0 <= i < |es| ==> !SameEdge(es[i], e.from, e.to, e.kind)
    ensures GoodEdges(es + [e], nextNode, nextEdge + 1)
  {
  }

  lemma MoreNodesGood(es: seq<Edge>, nextNode: nat, nextEdge: nat)
    requires GoodEdges(es, nextNode, nextEdge)
    ensures GoodEdges(es, nextNode + 1, nextEdge)
  {
  }

  // ---- What the searches promise ----

  ghost predicate IsReverseClosure(es: seq<Edge>, seeds: set<NodeId>, reached: set<NodeId>) {
    forall n :: n in reached <==> LeadsTo(es, n, seeds)
  }

  /** A real cycle: the walk returns to its start, repeats nothing else, and each edge id names its step. */
  ghost predicate ValidWitness(es: seq<Edge>, w: CycleWitness) {
    && |w.nodes| >= 2 && |w.edges| == |w.nodes| - 1
    && w.nodes[0] == w.nodes[|w.nodes| - 1]
    && Distinct(w.nodes[..|w.nodes| - 1])
    && forall i :: 0 <= i < |w.edges| ==> NamesEdge(es, w.edges[i], w.nodes[i], w.nodes[i + 1])
  }

  /** The id is that of the first edge from one node to the other. */
  ghost predicate NamesEdge(es: seq<Edge>, id: EdgeId, from: NodeId, to: NodeId) {
    exists k :: 0 <= k < |es| && es[k].id == id && es[k].from == from && es[k].to == to && NoneJoins(es, k, from, to)
  }

  predicate NoneJoins(es: seq<Edge>, k: nat, from: NodeId, to: NodeId)
    requires k <= |es|
  {
    forall j :: 0 <= j < k ==> !(es[j].from == from && es[j].to == to)
  }

  lemma WitnessIsCycle(es: seq<Edge>, w: CycleWitness)
    requires ValidWitness(es, w)
    ensures Cyclic(es)
  {
    forall i | 0 <= i < |w.nodes| - 1
      ensures HasEdge(es, w.nodes[i], w.nodes[i + 1])
    {
      assert NamesEdge(es, w.edges[i], w.nodes[i], w.nodes[i + 1]);
    }
    assert WalkFromTo(es, w.nodes, w.nodes[0], w.nodes[0]);
  }

  class BuildGraph {
    var nextNode: nat
    var nextEdge: nat
    var generation: nat
    var nodes: map<NodeId, BuildNode>
    var edges: seq<Edge>

    ghost predicate Valid()
      reads this
    {
      && 1 <= nextNode && 1 <= nextEdge
      && GoodNodes(nodes, nextNode) && GoodEdges(edges, nextNode, nextEdge)
    }

    constructor ()
      ensures Valid() && nodes == map[] && edges == [] && generation == 1
    {
      nextNode, nextEdge, generation := 1, 1, 1;
      nodes, edges := map[], [];
    }

    method PublishGeneration()
      modifies this`generation
      ensures generation == old(generation) + 1
    {
      generation := generation + 1;
    }

    /** A known name keeps its node id and has its action replaced; a new name gets the next id. */
    method PutNode(name: Str, action: ActionSpec) returns (r: Option<NodeId>)
      requires Valid()
      modifies this
      ensures Valid() && edges == old(edges) && nextEdge == old(nextEdge)
      ensures r.None? <==> name == []
      ensures r.None? ==> unchanged(this)
      ensures r.Some? ==>
        && generation == old(generation) + 1
        && var key := if r.value in old(nodes) then old(nodes)[r.value].lastActionKey else NO_KEY;
           nodes == old(nodes)[r.value := BuildNode(r.value, generation, name, action, Dirty, key)]
      ensures r.Some? ==>
        if exists n :: n in old(nodes) && old(nodes)[n].name == name
        then r.value in old(nodes) && old(nodes)[r.value].name == name && nextNode == old(nextNode)
        else r.value == old(nextNode) && nextNode == old(nextNode) + 1
    {
      hide GoodEdges, GoodNodes;
      NodesKnown(nodes, nextNode);
      if name == [] {
        return None;
      }
      for id := 1 to nextNode
        invariant unchanged(this)
        invariant forall n :: 1 <= n < id ==> nodes[n].name != name
      {
        if nodes[id].name == name {
          var updated := nodes[id].(action := action, generation := generation + 1, state := Dirty);
          NodePutGood(nodes, nextNode, id, updated);
          nodes := nodes[id := updated];
          PublishGeneration();
          return Some(id);
        }
      }
      var id := nextNode;
      var node := BuildNode(id, generation + 1, name, action, Dirty, NO_KEY);
      NodePutGood(nodes, nextNode, id, node);
      MoreNodesGood(edges, nextNode, nextEdge);
      nextNode := nextNode + 1;
      nodes := nodes[id := node];
      PublishGeneration();
      r := Some(id);
    }

    /** An edge is added once per kind, marks its source dirty, and never joins unknown nodes. */
    method PutEdge(from: NodeId, to: NodeId, kind: EdgeKind) returns (r: Option<EdgeId>)
      requires Valid()
      modifies this
      ensures Valid() && nextNode == old(nextNode)
      ensures r.None? <==> from !in old(nodes) || to !in old(nodes)
      ensures (r.None? || exists i :: 0 <= i < |old(edges)| && SameEdge(old(edges)[i], from, to, kind)) ==>
        unchanged(this)
      ensures r.Some? ==> exists i :: 0 <= i < |edges| && edges[i].id == r.value && SameEdge(edges[i], from, to, kind)
      ensures r.Some? && !(exists i :: 0 <= i < |old(edges)| && SameEdge(old(edges)[i], from, to, kind)) ==>
        && edges == old(edges) + [Edge(old(nextEdge), old(generation) + 1, from, to, kind)]
        && nodes == old(nodes)[from := old(nodes)[from].(state := Dirty)]
        && generation == old(generation) + 1 && nextEdge == old(nextEdge) + 1
    {
      hide GoodEdges;
      if from !in nodes || to !in nodes {
        return None;
      }
      for i := 0 to |edges|
        invariant unchanged(this)
        invariant forall k :: 0 <= k < i ==> !SameEdge(edges[k], from, to, kind)
      {
        if SameEdge(edges[i], from, to, kind) {
          return Some(edges[i].id);
        }
      }
      var id := nextEdge;
      EdgeAddedGood(edges, nextNode, nextEdge, Edge(id, generation + 1, from, to, kind));
      nextEdge := nextEdge + 1;
      edges := edges + [Edge(id, generation + 1, from, to, kind)];
      nodes := nodes[from := nodes[from].(state := Dirty)];
      PublishGeneration();
      assert edges[|edges| - 1].id == id && SameEdge(edges[|edges| - 1], from, to, kind);
      r := Some(id);
    }

    /** Exactly the discovered edges leaving `from` go. */
    method RemoveDiscoveredFrom(from: NodeId)
      requires Valid()
      modifies this
      ensures Valid() && nodes == old(nodes) && nextNode == old(nextNode) && nextEdge == old(nextEdge)
      ensures edges == WithoutDiscovered(old(edges), from) && generation == old(generation) + 1
    {
      hide GoodEdges, GoodNodes;
      ghost var all := edges;
      var kept, i := [], 0;
      while i < |edges|
        invariant 0 <= i <= |edges| && edges == all && unchanged(this)
        invariant kept == WithoutDiscovered(all[..i], from)
      {
        assert all[..i + 1][..i] == all[..i];
        if !(edges[i].from == from && edges[i].kind == Discovered) {
          kept := kept + [edges[i]];
        }
        i := i + 1;
      }
      assert all[..|all|] == all;
      WithoutDiscoveredGood(all, from, nextNode, nextEdge);
      edges := kept;
      PublishGeneration();
    }

    /** The worklist computes exactly the nodes with a walk to a seed. */
    method ReverseClosure(seeds: set<NodeId>) returns (reached: set<NodeId>)
      requires Valid()
      ensures IsReverseClosure(edges, seeds, reached)
    {
      hide LeadsTo, Settled;
      reached := seeds;
      var work := Elements(seeds);
      ghost var universe := seeds + nodes.Keys;
      SeedsLead(edges, seeds);
      AllPending(edges, reached, work);
      while work != []
        invariant seeds <= reached <= universe
        invariant forall n :: n in work ==> n in reached
        invariant forall n :: n in reached ==> LeadsTo(edges, n, seeds)
        invariant Settled(edges, reached, work)
        decreases |universe - reached| + |work|
      {
        var node := work[|work| - 1];
        reached, work := AddSources(edges, node, reached, work[..|work| - 1], seeds, universe, work);
      }
      ClosureComplete(edges, seeds, reached);
    }
  }

  /** One turn of the worklist: the unreached sources of edges into `node` are reached and queued. */
  method AddSources(
      es: seq<Edge>, node: NodeId, reached0: set<NodeId>, work0: seq<NodeId>,
      ghost seeds: set<NodeId>, ghost universe: set<NodeId>, ghost before: seq<NodeId>)
      returns (reached: set<NodeId>, work: seq<NodeId>)
    requires before == work0 + [node] && (forall n :: n in before ==> n in reached0)
    requires reached0 <= universe && (forall n :: n in reached0 ==> LeadsTo(es, n, seeds))
    requires forall k :: 0 <= k < |es| ==> es[k].from in universe
    requires Settled(es, reached0, before)
    ensures reached0 <= reached <= universe && (forall n :: n in reached ==> LeadsTo(es, n, seeds))
    ensures forall n :: n in work ==> n in reached
    ensures Settled(es, reached, work)
    ensures |universe - reached| + |work| < |universe - reached0| + |before|
  {
    hide LeadsTo;
    reached, work := reached0, work0;
    for i := 0 to |es|
      invariant reached0 <= reached <= universe && work0 <= work
      invariant forall n :: n in work ==> n in reached
      invariant forall n :: n in reached ==> LeadsTo(es, n, seeds)
      invariant forall n :: n in reached && n !in work ==> n in reached0 && (n == node || n !in before)
      invariant forall k :: 0 <= k < i && es[k].to == node ==> es[k].from in reached
      invariant |universe - reached| + |work| == |universe - reached0| + |work0|
    {
      var from := es[i].from;
      if es[i].to == node && from !in reached {
        LeadsBack(es, i, seeds);
        assert universe - (reached + {from}) == (universe - reached) - {from};
        reached := reached + {from};
        work := work + [from];
      }
    }
  }

  lemma AllPending(es: seq<Edge>, reached: set<NodeId>, work: seq<NodeId>)
    requires forall n :: n in reached ==> n in work
    ensures Settled(es, reached, work)
  {
  }

  ghost predicate LeadsTo(es: seq<Edge>, n: NodeId, seeds: set<NodeId>) {
    exists s :: s in seeds && Reaches(es, n, s)
  }

  /** Sources of edges into reached nodes are reached, except for nodes still to be worked on. */
  predicate Settled(es: seq<Edge>, reached: set<NodeId>, work: seq<NodeId>) {
    forall k :: 0 <= k < |es| && es[k].to in reached && es[k].to !in work ==> es[k].from in reached
  }

  lemma SeedsLead(es: seq<Edge>, seeds: set<NodeId>)
    ensures forall n :: n in seeds ==> LeadsTo(es, n, seeds)
  {
    forall n | n in seeds
      ensures LeadsTo(es, n, seeds)
    {
      ReachesSelf(es, n);
    }
  }

  lemma LeadsBack(es: seq<Edge>, i: nat, seeds: set<NodeId>)
    requires i < |es| && LeadsTo(es, es[i].to, seeds)
    ensures LeadsTo(es, es[i].from, seeds)
  {
    hide Reaches;
    var s :| s in seeds && Reaches(es, es[i].to, s);
    assert HasEdge(es, es[i].from, es[i].to);
    ReachesStep(es, es[i].from, es[i].to, s);
  }

  lemma ClosureComplete(es: seq<Edge>, seeds: set<NodeId>, reached: set<NodeId>)
    requires seeds <= reached && Settled(es, reached, [])
    requires forall n :: n in reached ==> LeadsTo(es, n, seeds)
    ensures IsReverseClosure(es, seeds, reached)
  {
    forall n, s | s in seeds && Reaches(es, n, s)
      ensures n in reached
    {
      var p :| WalkFromTo(es, p, n, s);
      WalkBackInto(es, reached, p);
    }
  }

  lemma {:induction false} WalkBackInto(es: seq<Edge>, s: set<NodeId>, p: seq<NodeId>)
    requires IsWalk(es, p) && p[|p| - 1] in s
    requires forall k :: 0 <= k < |es| && es[k].to in s ==> es[k].from in s
    ensures p[0] in s
    decreases |p|
  {
    if |p| > 1 {
      WalkTail(es, p);
      WalkBackInto(es, s, p[1..]);
    }
  }

  /** The elements of a set, each once, in some order. */
  method Elements(s: set<NodeId>) returns (r: seq<NodeId>)
    ensures forall n :: n in r <==> n in s
  {
    r := [];
    var rest := s;
    while rest != {}
      invariant rest <= s
      invariant forall n :: n in r <==> n in s && n !in rest
      decreases |rest|
    {
      var n :| n in rest;
      r, rest := r + [n], rest - {n};
    }
  }
}
