/**
  The coloured depth-first search for a cycle, with its witness.

  The colour map and the stack, which the recursive closure of the source captures, are passed in
  and out.
 */
module CycleSearch {
  import opened Words
  import opened Walks
  import opened BuildGraphs

  datatype Search = Search(color: map<NodeId, Color>, stack: seq<NodeId>)

  /** The search between two steps; `done` lists the black nodes as they finished. */
  ghost predicate Sound(es: seq<Edge>, nextNode: nat, s: Search, done: seq<NodeId>) {
    && (forall n :: n in s.color <==> 1 <= n < nextNode)
    && Distinct(s.stack) && (forall n :: n in s.stack <==> n in s.color && s.color[n] == Gray)
    && (forall i :: 0 <= i < |s.stack| - 1 ==> HasEdge(es, s.stack[i], s.stack[i + 1]))
    && Distinct(done) && (forall n :: n in done <==> n in s.color && s.color[n] == Black)
    && DependenciesFirst(es, done)
  }

  function Whites(color: map<NodeId, Color>): set<NodeId> {
    set n | n in color && color[n] == White
  }

  /** The nodes on the cycle, found by searching the stack for the gray node that was met. */
  method StackSuffix(stack: seq<NodeId>, node: NodeId) returns (start: nat)
    requires node in stack
    ensures start < |stack| && stack[start] == node
  {
    start := 0;
    while stack[start] != node
      invariant start < |stack| && exists j :: start <= j < |stack| && stack[j] == node
      decreases |stack| - start
    {
      start := start + 1;
    }
  }

  /** For every step of the walk, the first edge that makes it. */
  method NameSteps(es: seq<Edge>, nodes: seq<NodeId>) returns (ids: seq<EdgeId>)
    requires nodes != [] && IsWalk(es, nodes)
    ensures |ids| == |nodes| - 1
    ensures forall i :: 0 <= i < |ids| ==> NamesEdge(es, ids[i], nodes[i], nodes[i + 1])
  {
    ids := [];
    for i := 0 to |nodes| - 1
      invariant |ids| == i
      invariant forall k :: 0 <= k < i ==> NamesEdge(es, ids[k], nodes[k], nodes[k + 1])
    {
      assert HasEdge(es, nodes[i], nodes[i + 1]);
      var k := 0;
      while !(es[k].from == nodes[i] && es[k].to == nodes[i + 1])
        invariant k < |es|
        invariant exists j :: k <= j < |es| && es[j].from == nodes[i] && es[j].to == nodes[i + 1]
        invariant NoneJoins(es, k, nodes[i], nodes[i + 1])
        decreases |es| - k
      {
        k := k + 1;
      }
      assert NamesEdge(es, es[k].id, nodes[i], nodes[i + 1]);
      ids := ids + [es[k].id];
    }
  }

  /** Meeting a gray node closes a cycle: the stack from there on, and the edge back. */
  method CloseCycle(es: seq<Edge>, stack: seq<NodeId>, k: nat) returns (w: CycleWitness)
    requires k < |es| && stack != [] && Distinct(stack) && es[k].to in stack && es[k].from == stack[|stack| - 1]
    requires forall i :: 0 <= i < |stack| - 1 ==> HasEdge(es, stack[i], stack[i + 1])
    ensures ValidWitness(es, w)
  {
    var start := StackSuffix(stack, es[k].to);
    var nodes := stack[start..] + [es[k].to];
    forall i | 0 <= i < |nodes| - 1
      ensures HasEdge(es, nodes[i], nodes[i + 1])
    {
      var j := start + i;
      if i < |nodes| - 2 {
        assert HasEdge(es, stack[j], stack[j + 1]);
      }
    }
    var ids := NameSteps(es, nodes);
    assert nodes[..|nodes| - 1] == stack[start..];
    w := CycleWitness(nodes, ids);
  }

  /** Gray is being on the stack, black is being done; and the stack is a walk without repetition. */
  lemma ColorMeans(es: seq<Edge>, nextNode: nat, s: Search, done: seq<NodeId>, n: NodeId)
    requires Sound(es, nextNode, s, done) && 1 <= n < nextNode
    ensures n in s.color && (s.color[n] == Gray <==> n in s.stack) && (s.color[n] == Black <==> n in done)
    ensures Distinct(s.stack) && forall i :: 0 <= i < |s.stack| - 1 ==> HasEdge(es, s.stack[i], s.stack[i + 1])
  {
  }

  function Entered(s: Search, node: NodeId): Search {
    Search(s.color[node := Gray], s.stack + [node])
  }

  lemma EnterKeepsSound(es: seq<Edge>, nextNode: nat, s: Search, done: seq<NodeId>, node: NodeId)
    requires Sound(es, nextNode, s, done) && node in s.color && s.color[node] == White
    requires s.stack != [] ==> HasEdge(es, s.stack[|s.stack| - 1], node)
    ensures Sound(es, nextNode, Entered(s, node), done)
    ensures Whites(Entered(s, node).color) == Whites(s.color) - {node} && node in Whites(s.color)
  {
    hide HasEdge, DependenciesFirst;
    assert node !in s.stack && node !in done;
  }

  lemma LeaveKeepsSound(es: seq<Edge>, nextNode: nat, s: Search, done: seq<NodeId>, stack: seq<NodeId>, node: NodeId)
    requires Sound(es, nextNode, s, done) && s.stack == stack + [node]
    requires forall k :: 0 <= k < |es| && es[k].from == node ==> es[k].to in done
    ensures Sound(es, nextNode, Search(s.color[node := Black], stack), done + [node])
    ensures Whites(s.color[node := Black]) == Whites(s.color)
  {
    hide HasEdge, DependenciesFirst;
    assert s.stack[|s.stack| - 1] == node;
    assert node in s.stack && node !in done;
    forall i | 0 <= i < |stack|
      ensures stack[i] != node && stack[i] in s.stack
    {
      assert s.stack[i] == stack[i];
    }
    FirstExtends(es, done, node);
    var s' := Search(s.color[node := Black], stack);
    forall i | 0 <= i < |stack| - 1
      ensures HasEdge(es, stack[i], stack[i + 1])
    {
      assert HasEdge(es, s.stack[i], s.stack[i + 1]);
    }
    assert forall n :: n in s.stack <==> n in stack || n == node;
    assert Distinct(stack) by {
      forall i, j | 0 <= i < j < |stack|
        ensures stack[i] != stack[j]
      {
        assert s.stack[i] == stack[i] && s.stack[j] == stack[j];
      }
    }
    assert Distinct(done + [node]);
    assert forall n :: n in stack <==> n in s'.color && s'.color[n] == Gray;
    assert forall n :: n in done + [node] <==> n in s'.color && s'.color[n] == Black;
  }

  /**
    Visits a white node. Without a finding the node and all it leads to end up black, the stack is
    as before, and the black nodes stay listed dependencies first.
   */
  method Visit(es: seq<Edge>, nextNode: nat, node: NodeId, s0: Search, ghost done0: seq<NodeId>)
    returns (s: Search, found: Option<CycleWitness>, ghost done: seq<NodeId>)
    requires forall k :: 0 <= k < |es| ==> 1 <= es[k].from < nextNode && 1 <= es[k].to < nextNode
    requires Sound(es, nextNode, s0, done0) && node in s0.color && s0.color[node] == White
    requires s0.stack != [] ==> HasEdge(es, s0.stack[|s0.stack| - 1], node)
    ensures found.Some? ==> ValidWitness(es, found.value)
    ensures found.None? ==>
      && Sound(es, nextNode, s, done) && s.stack == s0.stack
      && node in done && Whites(s.color) <= Whites(s0.color) && done0 <= done
    decreases |Whites(s0.color)|
  {
    hide HasEdge, ValidWitness, DependenciesFirst, Whites, Distinct, Sound;
    EnterKeepsSound(es, nextNode, s0, done0, node);
    s := Entered(s0, node);
    done, found := done0, None;
    for k := 0 to |es|
      invariant Sound(es, nextNode, s, done) && s.stack == s0.stack + [node] && done0 <= done
      invariant Whites(s.color) <= Whites(s0.color) - {node} && found.None?
      invariant forall j :: 0 <= j < k && es[j].from == node ==> es[j].to in done
    {
      if es[k].from == node {
        var to := es[k].to;
        ColorMeans(es, nextNode, s, done, to);
        if s.color[to] == White {
          EdgeThere(es, k);
          SubsetSize(Whites(s.color), Whites(s0.color) - {node});
          s, found, done := Visit(es, nextNode, to, s, done);
          if found.Some? {
            return;
          }
        } else if s.color[to] == Gray {
          var w := CloseCycle(es, s.stack, k);
          return s, Some(w), done;
        }
      }
    }
    LeaveKeepsSound(es, nextNode, s, done, s0.stack, node);
    s := Search(s.color[node := Black], s0.stack);
    done := done + [node];
  }

  lemma EdgeThere(es: seq<Edge>, k: nat)
    requires k < |es|
    ensures HasEdge(es, es[k].from, es[k].to)
  {
  }

  /**
    The search returns nothing exactly when the graph has no cycle, and otherwise a real cycle.
   */
  method FindCycle(graph: BuildGraph) returns (found: Option<CycleWitness>)
    requires graph.Valid()
    ensures found.None? <==> !Cyclic(graph.edges)
    ensures found.Some? ==> ValidWitness(graph.edges, found.value)
  {
    hide HasEdge, ValidWitness, DependenciesFirst, Distinct, Cyclic, Sound;
    var es, nextNode := graph.edges, graph.nextNode;
    var s := Search(map[], []);
    for id := 1 to nextNode
      invariant s.stack == []
      invariant forall n :: n in s.color <==> 1 <= n < id
      invariant forall n :: n in s.color ==> s.color[n] == White
    {
      s := s.(color := s.color[id := White]);
    }
    ghost var done: seq<NodeId> := [];
    StartIsSound(es, nextNode, s);
    found := None;
    for id := 1 to nextNode
      invariant Sound(es, nextNode, s, done) && s.stack == [] && found.None?
      invariant forall n :: 1 <= n < id ==> n in done
    {
      ColorMeans(es, nextNode, s, done, id);
      if s.color[id] == White {
        ghost var before := done;
        s, found, done := Visit(es, nextNode, id, s, done);
        if found.Some? {
          WitnessIsCycle(es, found.value);
          return;
        }
        assert forall n :: n in before ==> n in done;
      } else {
        assert id !in s.stack && s.color[id] == Black;
      }
    }
    AllDone(es, nextNode, s, done);
    FirstIsAcyclic(es, done);
  }

  lemma AllDone(es: seq<Edge>, nextNode: nat, s: Search, done: seq<NodeId>)
    requires Sound(es, nextNode, s, done)
    ensures DependenciesFirst(es, done) && Distinct(done)
  {
  }


  lemma StartIsSound(es: seq<Edge>, nextNode: nat, s: Search)
    requires s.stack == [] && forall n :: n in s.color <==> 1 <= n < nextNode
    requires forall n :: n in s.color ==> s.color[n] == White
    ensures Sound(es, nextNode, s, [])
  {
  }
}
