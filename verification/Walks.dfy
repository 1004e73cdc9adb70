/**
  Walks in a list of edges: reachability, cycles, and orders in which dependencies come first.
 */
module Walks {

  type NodeId = nat
  type EdgeId = nat

  datatype EdgeKind = Declared | Discovered

  datatype Edge = Edge(id: EdgeId, generation: nat, from: NodeId, to: NodeId, kind: EdgeKind)

  predicate HasEdge(es: seq<Edge>, a: NodeId, b: NodeId) {
    exists i :: 0 <= i < |es| && es[i].from == a && es[i].to == b
  }

  predicate IsWalk(es: seq<Edge>, p: seq<NodeId>) {
    p != [] && forall i :: 0 <= i < |p| - 1 ==> HasEdge(es, p[i], p[i + 1])
  }

  predicate WalkFromTo(es: seq<Edge>, p: seq<NodeId>, a: NodeId, b: NodeId) {
    IsWalk(es, p) && p[0] == a && p[|p| - 1] == b
  }

  ghost predicate Reaches(es: seq<Edge>, a: NodeId, b: NodeId) {
    exists p :: WalkFromTo(es, p, a, b)
  }

  ghost predicate Cyclic(es: seq<Edge>) {
    exists a, p :: WalkFromTo(es, p, a, a) && |p| > 1
  }

  lemma WalkTail(es: seq<Edge>, p: seq<NodeId>)
    requires IsWalk(es, p) && |p| > 1
    ensures IsWalk(es, p[1..]) && HasEdge(es, p[0], p[1])
  {
    var q := p[1..];
    assert HasEdge(es, p[0], p[0 + 1]);
    forall i | 0 <= i < |q| - 1
      ensures HasEdge(es, q[i], q[i + 1])
    {
      var j := i + 1;
      assert HasEdge(es, p[j], p[j + 1]);
    }
  }

  lemma ReachesSelf(es: seq<Edge>, a: NodeId)
    ensures Reaches(es, a, a)
  {
    assert WalkFromTo(es, [a], a, a);
  }

  lemma ReachesStep(es: seq<Edge>, a: NodeId, b: NodeId, c: NodeId)
    requires HasEdge(es, a, b) && Reaches(es, b, c)
    ensures Reaches(es, a, c)
  {
    hide HasEdge;
    var p :| WalkFromTo(es, p, b, c);
    var q := [a] + p;
    forall i | 0 <= i < |q| - 1
      ensures HasEdge(es, q[i], q[i + 1])
    {
      if i > 0 {
        var j := i - 1;
        assert q[i] == p[j] && q[i + 1] == p[j + 1] && HasEdge(es, p[j], p[j + 1]);
      }
    }
    assert WalkFromTo(es, q, a, c);
  }

  lemma ReachesThenStep(es: seq<Edge>, a: NodeId, b: NodeId, c: NodeId)
    requires Reaches(es, a, b) && HasEdge(es, b, c)
    ensures Reaches(es, a, c)
  {
    var p :| WalkFromTo(es, p, a, b);
    assert WalkFromTo(es, p + [c], a, c);
  }

  lemma StepBackCloses(es: seq<Edge>, a: NodeId, b: NodeId)
    requires Reaches(es, a, b) && HasEdge(es, b, a)
    ensures Cyclic(es)
  {
    var p :| WalkFromTo(es, p, a, b);
    assert WalkFromTo(es, p + [a], a, a);
  }

  /** A set closed under edges contains all a member reaches. */
  lemma {:induction false} ClosedContainsWalk(es: seq<Edge>, s: set<NodeId>, p: seq<NodeId>)
    requires IsWalk(es, p) && p[0] in s
    requires forall i :: 0 <= i < |es| && es[i].from in s ==> es[i].to in s
    ensures p[|p| - 1] in s
    decreases |p|
  {
    if |p| > 1 {
      assert HasEdge(es, p[0], p[1]);
      WalkTail(es, p);
      ClosedContainsWalk(es, s, p[1..]);
    }
  }

  // ---- Orders with dependencies first ----

  /** Each listed node's edges lead to nodes listed before it. */
  ghost predicate DependenciesFirst(es: seq<Edge>, order: seq<NodeId>) {
    forall i, k :: 0 <= i < |order| && 0 <= k < |es| && es[k].from == order[i] ==> es[k].to in order[..i]
  }

  predicate Distinct(s: seq<NodeId>) {
    forall i, j :: 0 <= i < j < |s| ==> s[i] != s[j]
  }

  lemma FirstExtends(es: seq<Edge>, order: seq<NodeId>, node: NodeId)
    requires DependenciesFirst(es, order)
    requires forall k :: 0 <= k < |es| && es[k].from == node ==> es[k].to in order
    ensures DependenciesFirst(es, order + [node])
  {
    var longer := order + [node];
    forall i, k | 0 <= i < |longer| && 0 <= k < |es| && es[k].from == longer[i]
      ensures es[k].to in longer[..i]
    {
      assert longer[..i] == order[..i];
      assert order[..|order|] == order;
    }
  }

  /** Along a walk through such an order, positions strictly decrease. */
  lemma {:induction false} WalkDescends(es: seq<Edge>, order: seq<NodeId>, p: seq<NodeId>, start: nat)
    returns (end: nat)
    requires DependenciesFirst(es, order) && IsWalk(es, p)
    requires start < |order| && order[start] == p[0]
    ensures end <= start && order[end] == p[|p| - 1] && (|p| > 1 ==> end < start)
    decreases |p|
  {
    if |p| == 1 {
      return start;
    }
    assert HasEdge(es, p[0], p[1]);
    var k :| 0 <= k < |es| && es[k].from == p[0] && es[k].to == p[1];
    assert es[k].to in order[..start];
    var next :| 0 <= next < start && order[next] == p[1];
    WalkTail(es, p);
    end := WalkDescends(es, order, p[1..], next);
  }

  /** A graph all of whose sources can be listed dependencies first, each once, has no cycle. */
  lemma FirstIsAcyclic(es: seq<Edge>, order: seq<NodeId>)
    requires DependenciesFirst(es, order) && Distinct(order)
    requires forall k :: 0 <= k < |es| ==> es[k].from in order
    ensures !Cyclic(es)
  {
    if Cyclic(es) {
      var a, p :| WalkFromTo(es, p, a, a) && |p| > 1;
      assert HasEdge(es, p[0], p[1]);
      var start :| 0 <= start < |order| && order[start] == a;
      var end := WalkDescends(es, order, p, start);
      assert false;
    }
  }

  // ---- Turning the edges round ----

  function Transposed(es: seq<Edge>): (r: seq<Edge>)
    ensures |r| == |es|
  {
    seq(|es|, i requires 0 <= i < |es| => es[i].(from := es[i].to, to := es[i].from))
  }

  lemma TransposedEdge(es: seq<Edge>, a: NodeId, b: NodeId)
    ensures HasEdge(Transposed(es), a, b) <==> HasEdge(es, b, a)
  {
    var r := Transposed(es);
    if HasEdge(r, a, b) {
      var i :| 0 <= i < |r| && r[i].from == a && r[i].to == b;
      assert es[i].from == b && es[i].to == a;
    }
    if HasEdge(es, b, a) {
      var i :| 0 <= i < |es| && es[i].from == b && es[i].to == a;
      assert r[i].from == a && r[i].to == b;
    }
  }

  /** Reachability in the transposed graph is reachability backwards. */
  lemma {:induction false} TransposedReaches(es: seq<Edge>, a: NodeId, b: NodeId)
    ensures Reaches(Transposed(es), a, b) <==> Reaches(es, b, a)
  {
    if Reaches(Transposed(es), a, b) {
      var p :| WalkFromTo(Transposed(es), p, a, b);
      BackwardWalk(es, p);
    }
    if Reaches(es, b, a) {
      var p :| WalkFromTo(es, p, b, a);
      ForwardWalk(es, p);
    }
  }

  lemma {:induction false} BackwardWalk(es: seq<Edge>, p: seq<NodeId>)
    requires IsWalk(Transposed(es), p)
    ensures Reaches(es, p[|p| - 1], p[0])
    decreases |p|
  {
    if |p| == 1 {
      ReachesSelf(es, p[0]);
    } else {
      WalkTail(Transposed(es), p);
      BackwardWalk(es, p[1..]);
      assert HasEdge(Transposed(es), p[0], p[0 + 1]);
      TransposedEdge(es, p[0], p[1]);
      ReachesThenStep(es, p[|p| - 1], p[1], p[0]);
    }
  }

  lemma {:induction false} ForwardWalk(es: seq<Edge>, p: seq<NodeId>)
    requires IsWalk(es, p)
    ensures Reaches(Transposed(es), p[|p| - 1], p[0])
    decreases |p|
  {
    if |p| == 1 {
      ReachesSelf(Transposed(es), p[0]);
    } else {
      WalkTail(es, p);
      ForwardWalk(es, p[1..]);
      assert HasEdge(es, p[0], p[0 + 1]);
      TransposedEdge(es, p[1], p[0]);
      ReachesThenStep(Transposed(es), p[|p| - 1], p[1], p[0]);
    }
  }
}
