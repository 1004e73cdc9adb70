/**
  The build: cycle check, plan, and the loop that runs one job per distinct action key.

  The executor and the artifact store answer as they like; their answers may depend on the number
  of the call, so any stateful executor is covered.
 */
module Build {
  import opened Words
  import opened Digests
  import opened Actions
  import opened Walks
  import opened BuildGraphs
  import opened CycleSearch
  import opened Planning
  import opened EventHubs
  import opened Leases

  datatype JobSpec = JobSpec(job: JobId, node: NodeId, generation: nat, key: Digest)

  /** `success` is carried along; the build never looks at it. */
  datatype WorkerResult = WorkerResult(claim: Claim, success: bool, artifacts: seq<Str>)

  datatype Environment = Environment(
    run: (nat, WorkerLease, JobSpec) -> Option<WorkerResult>,
    publish: (nat, Str) -> Option<nat>)

  datatype Notice = AttachedNotice | RunningNotice(name: Str) | FailedNotice | SucceededNotice(name: Str)

  /** What became of a planned node: it ran under a job, or joined the job of an equal action. */
  datatype Entry = Ran(node: NodeId, job: JobId) | Joined(node: NodeId, job: JobId)

  datatype BuildState = BuildState(
    active: map<Digest, JobId>, nextJob: JobId, leases: Leases.State, calls: nat, uploads: nat,
    trace: seq<Entry>, notices: seq<Notice>, artifacts: seq<nat>, failed: bool)

  function Fresh(nextJob: JobId): BuildState {
    BuildState(map[], nextJob, Leases.State(1, map[]), 0, 0, [], [], [], false)
  }

  ghost function KeyOf(nodes: map<NodeId, BuildNode>, n: NodeId): Digest
    requires n in nodes
  {
    ActionKey(nodes[n].action, [], [])
  }

  /** Publishes artifacts one by one until one is refused. */
  function Upload(env: Environment, p: BuildState, artifacts: seq<Str>): BuildState
    decreases |artifacts|
  {
    if artifacts == [] then p else
    match env.publish(p.uploads, artifacts[0])
    case None => p.(uploads := p.uploads + 1, failed := true)
    case Some(key) => Upload(env, p.(uploads := p.uploads + 1, artifacts := p.artifacts + [key]), artifacts[1..])
  }

  function Failing(p: BuildState): BuildState {
    p.(notices := p.notices + [FailedNotice], failed := true)
  }

  /** The state in which the artifacts of a run are uploaded, and the lease it runs under. */
  function Begun(p: BuildState, n: NodeId, node: BuildNode, key: Digest): (BuildState, WorkerLease) {
    var job := p.nextJob;
    var (leases, lease) := Leased(p.leases, job);
    (p.(active := p.active[key := job], nextJob := job + 1, leases := leases, calls := p.calls + 1,
        trace := p.trace + [Ran(n, job)], notices := p.notices + [RunningNotice(node.name)]), lease)
  }

  /** Runs a node under a new job. */
  function RunNode(env: Environment, p: BuildState, n: NodeId, node: BuildNode, key: Digest): BuildState {
    var (q, lease) := Begun(p, n, node, key);
    match env.run(p.calls, lease, JobSpec(p.nextJob, n, node.generation, key))
    case None => Failing(q)
    case Some(result) =>
      if !Validates(q.leases, lease, result.claim) then Failing(q) else
      var u := Upload(env, q, result.artifacts);
      if u.failed then Failing(u) else u.(notices := u.notices + [SucceededNotice(node.name)])
  }

  ghost function Advance(env: Environment, nodes: map<NodeId, BuildNode>, p: BuildState, n: NodeId): BuildState
    requires n in nodes
  {
    var key := KeyOf(nodes, n);
    if key in p.active then
      p.(trace := p.trace + [Joined(n, p.active[key])], notices := p.notices + [AttachedNotice])
    else RunNode(env, p, n, nodes[n], key)
  }

  /** The progress after a prefix of the plan; after a failure nothing more happens. */
  ghost function After(env: Environment, nodes: map<NodeId, BuildNode>, p: BuildState, plan: seq<NodeId>): BuildState
    requires forall n :: n in plan ==> n in nodes
  {
    if plan == [] then p else
    var q := After(env, nodes, p, plan[..|plan| - 1]);
    if q.failed then q else Advance(env, nodes, q, plan[|plan| - 1])
  }

  datatype Outcome =
    | CycleFound
    | UnknownTarget
    | StreamRefused
    | Built(request: nat, notices: seq<Notice>, artifacts: seq<nat>)

  /** The credit an event stream of a build starts with. */
  const BUILD_CREDIT: u64 := 1024 * 1024

  /** The event stream of a request: its number cut to 32 bits. */
  function StreamOf(request: nat): u32 {
    request % 0x1_0000_0000
  }

  predicate AllKnown(nodes: map<NodeId, BuildNode>, targets: seq<NodeId>) {
    forall t :: t in targets ==> t in nodes
  }

  class Workspace {
    const graph: BuildGraph
    const hub: EventHub
    var nextRequest: nat
    var nextJob: JobId

    constructor ()
      ensures graph.Valid() && fresh(graph) && fresh(hub) && nextRequest == 1 && nextJob == 1
    {
      graph := new BuildGraph();
      hub := new EventHub();
      nextRequest, nextJob := 1, 1;
    }

    method UploadAll(env: Environment, p: BuildState, artifacts: seq<Str>) returns (q: BuildState)
      requires !p.failed
      ensures q == Upload(env, p, artifacts)
    {
      q := p;
      for i := 0 to |artifacts|
        invariant !q.failed && Upload(env, q, artifacts[i..]) == Upload(env, p, artifacts)
      {
        assert artifacts[i..][1..] == artifacts[i + 1..];
        var published := env.publish(q.uploads, artifacts[i]);
        if published.None? {
          return q.(uploads := q.uploads + 1, failed := true);
        }
        q := q.(uploads := q.uploads + 1, artifacts := q.artifacts + [published.value]);
      }
    }

    /** One turn of the loop for a node that starts a job. */
    method StartJob(env: Environment, manager: ExecutorManager, p: BuildState, n: NodeId, node: BuildNode, key: Digest)
      returns (q: BuildState)
      requires !p.failed && manager.Contents() == p.leases
      modifies manager
      ensures q == RunNode(env, p, n, node, key) && manager.Contents() == q.leases
    {
      var job := p.nextJob;
      var lease := manager.Lease(job);
      q := p.(active := p.active[key := job], nextJob := job + 1,
              leases := Leases.State(manager.nextLease, manager.attempts), calls := p.calls + 1,
              trace := p.trace + [Ran(n, job)], notices := p.notices + [RunningNotice(node.name)]);
      var current := manager.ValidateCurrent(lease, Claim(lease.id, lease.attempt));
      assert current;
      var result := env.run(p.calls, lease, JobSpec(job, n, node.generation, key));
      if result.None? {
        return Failing(q);
      }
      var valid := manager.ValidateCurrent(lease, result.value.claim);
      if !valid {
        return Failing(q);
      }
      UploadKeepsLeases(env, q, result.value.artifacts);
      q := UploadAll(env, q, result.value.artifacts);
      q := if q.failed then Failing(q) else q.(notices := q.notices + [SucceededNotice(node.name)]);
    }

    /** The loop over the plan; it stops at the first failure. */
    method FollowPlan(env: Environment, nodes: map<NodeId, BuildNode>, firstJob: JobId, plan: seq<NodeId>)
      returns (p: BuildState)
      requires forall n :: n in plan ==> n in nodes
      ensures p == After(env, nodes, Fresh(firstJob), plan)
    {
      hide RunNode, Fresh, ActionKey;
      var manager := new ExecutorManager();
      p := Fresh(firstJob);
      FreshIsIdle(firstJob);
      var i := 0;
      assert plan[..0] == [];
      while i < |plan| && !p.failed
        invariant 0 <= i <= |plan| && manager.Contents() == p.leases && fresh(manager)
        invariant p == After(env, nodes, Fresh(firstJob), plan[..i])
        decreases |plan| - i, !p.failed
      {
        AfterSnoc(env, nodes, Fresh(firstJob), plan, i);
        p := TakeNode(env, manager, nodes, p, plan[i]);
        i := i + 1;
      }
      AfterFailure(env, nodes, Fresh(firstJob), plan, i);
    }

    /** A node whose key is active joins that job; any other starts one. */
    method TakeNode(env: Environment, manager: ExecutorManager, nodes: map<NodeId, BuildNode>, p: BuildState, n: NodeId)
      returns (q: BuildState)
      requires n in nodes && !p.failed && manager.Contents() == p.leases
      modifies manager
      ensures q == Advance(env, nodes, p, n) && manager.Contents() == q.leases
    {
      hide RunNode, ActionKey;
      var key := ActionKeyFor(nodes[n].action, [], []);
      if key in p.active {
        q := p.(trace := p.trace + [Joined(n, p.active[key])], notices := p.notices + [AttachedNotice]);
      } else {
        q := StartJob(env, manager, p, n, nodes[n], key);
      }
    }

    /**
      A build of a cyclic graph, of unknown targets, or under a request number whose event stream
      cannot be opened is refused. Otherwise the plan is followed node by node, and `done` is what it
      comes to.
     */
    method BuildTargets(targets: seq<NodeId>, env: Environment)
      returns (outcome: Outcome, ghost plan: seq<NodeId>, ghost done: BuildState)
      requires graph.Valid()
      modifies this, hub
      ensures outcome == CycleFound <==> Cyclic(graph.edges)
      ensures outcome == UnknownTarget <==> !Cyclic(graph.edges) && !AllKnown(graph.nodes, targets)
      ensures outcome == StreamRefused <==>
        && !Cyclic(graph.edges) && AllKnown(graph.nodes, targets)
        && (StreamOf(old(nextRequest)) == 0 || StreamOf(old(nextRequest)) in old(hub.streams))
      ensures nextRequest == old(nextRequest) + if outcome == CycleFound || outcome == UnknownTarget then 0 else 1
      ensures outcome.Built? ==>
        && outcome.request == old(nextRequest)
        && hub.streams == old(hub.streams)[StreamOf(old(nextRequest)) := Stream(BUILD_CREDIT, [], false)]
        && IsPlan(graph.edges, targets, plan) && ListsAll(graph.edges, [], targets, plan) && !Cyclic(graph.edges)
        && (forall n :: n in plan ==> n in graph.nodes)
        && done == After(env, graph.nodes, Fresh(old(nextJob)), plan)
        && outcome.notices == done.notices && outcome.artifacts == done.artifacts && nextJob == done.nextJob
      ensures !outcome.Built? ==> nextJob == old(nextJob) && hub.streams == old(hub.streams)
    {
      hide IsPlan, ListsAll, Cyclic, RunNode, DependenciesFirst, Fresh, After;
      plan, done := [], Fresh(nextJob);
      var cycle := FindCycle(graph);
      if cycle.Some? {
        return CycleFound, plan, done;
      }
      var snapshot := GraphSnapshot(graph.generation, graph.nextNode, graph.nodes, graph.edges);
      var order := PlanOrder(snapshot, targets);
      if order.None? {
        return UnknownTarget, plan, done;
      }
      PlannedAreKnown(graph.edges, graph.nextNode, graph.nextEdge, targets, order.value, graph.nodes);
      var request := nextRequest;
      nextRequest := nextRequest + 1;
      var ready := hub.OpenStream(StreamOf(request), BUILD_CREDIT);
      if !ready {
        return StreamRefused, plan, done;
      }
      var p := FollowPlan(env, graph.nodes, nextJob, order.value);
      plan, done := order.value, p;
      nextJob := p.nextJob;
      outcome := Built(request, p.notices, p.artifacts);
    }
  }

  lemma AfterSnoc(env: Environment, nodes: map<NodeId, BuildNode>, p: BuildState, plan: seq<NodeId>, i: nat)
    requires (forall n :: n in plan ==> n in nodes) && i < |plan| && !After(env, nodes, p, plan[..i]).failed
    ensures After(env, nodes, p, plan[..i + 1]) == Advance(env, nodes, After(env, nodes, p, plan[..i]), plan[i])
  {
    hide Advance;
    assert plan[..i + 1][..i] == plan[..i];
  }

  lemma FreshIsIdle(nextJob: JobId)
    ensures Fresh(nextJob).leases == Leases.State(1, map[]) && !Fresh(nextJob).failed
  {
  }

  lemma {:induction false} UploadKeepsLeases(env: Environment, p: BuildState, artifacts: seq<Str>)
    ensures var q := Upload(env, p, artifacts);
      q.leases == p.leases && q.trace == p.trace && q.active == p.active && q.nextJob == p.nextJob
    decreases |artifacts|
  {
    if artifacts != [] {
      match env.publish(p.uploads, artifacts[0])
      case None =>
      case Some(key) =>
        UploadKeepsLeases(env, p.(uploads := p.uploads + 1, artifacts := p.artifacts + [key]), artifacts[1..]);
    }
  }

  lemma PlannedAreKnown(
      es: seq<Edge>, nextNode: nat, nextEdge: nat, targets: seq<NodeId>, order: seq<NodeId>,
      nodes: map<NodeId, BuildNode>)
    requires GoodEdges(es, nextNode, nextEdge) && (forall n :: n in nodes <==> 1 <= n < nextNode)
    requires IsPlan(es, targets, order) && forall t :: t in targets ==> t in nodes
    ensures forall n :: n in order ==> n in nodes
  {
    hide Cyclic, DependenciesFirst;
    forall n | n in order
      ensures n in nodes
    {
      var t :| t in targets && Reaches(es, t, n);
      var p :| WalkFromTo(es, p, t, n);
      ClosedContainsWalk(es, nodes.Keys, p);
    }
  }

  /** After a failure the rest of the plan changes nothing. */
  lemma {:induction false} AfterFailure(
      env: Environment, nodes: map<NodeId, BuildNode>, p: BuildState, plan: seq<NodeId>, i: nat)
    requires (forall n :: n in plan ==> n in nodes) && i <= |plan|
    requires After(env, nodes, p, plan[..i]).failed || i == |plan|
    ensures After(env, nodes, p, plan) == After(env, nodes, p, plan[..i])
    decreases |plan| - i
  {
    hide Advance;
    if i == |plan| {
      assert plan[..i] == plan;
    } else {
      assert plan[..i + 1][..i] == plan[..i];
      AfterFailure(env, nodes, p, plan, i + 1);
    }
  }

  // ---- What the loop achieves ----

  /** No earlier key is the same. */
  predicate FirstOfKey(keys: seq<Digest>, i: nat)
    requires i < |keys|
  {
    keys[i] !in keys[..i]
  }

  function RanCount(t: seq<Entry>): nat {
    if t == [] then 0 else RanCount(t[..|t| - 1]) + if t[|t| - 1].Ran? then 1 else 0
  }

  /** The first node of each key runs, under consecutive new jobs; every other joins an earlier run of its key. */
  ghost predicate Suppressed(keys: seq<Digest>, start: JobId, t: seq<Entry>) {
    && |t| == |keys|
    && (forall i :: 0 <= i < |t| ==> (t[i].Ran? <==> FirstOfKey(keys, i)))
    && (forall i :: 0 <= i < |t| && t[i].Ran? ==> t[i].job == start + RanCount(t[..i]))
    && (forall i :: 0 <= i < |t| && t[i].Joined? ==> RunsKey(keys[..i], t[..i], keys[i], t[i].job))
  }

  /** Some entry runs the key under that job. */
  ghost predicate RunsKey(keys: seq<Digest>, t: seq<Entry>, k: Digest, job: JobId)
    requires |t| == |keys|
  {
    exists r :: 0 <= r < |t| && t[r].Ran? && t[r].job == job && keys[r] == k
  }

  /** The map of active jobs: exactly the keys met so far, each with the job that runs it. */
  ghost predicate ActiveKeys(keys: seq<Digest>, t: seq<Entry>, active: map<Digest, JobId>)
    requires |t| == |keys|
  {
    && (forall k :: k in keys <==> k in active)
    && (forall k :: k in active ==> RunsKey(keys, t, k, active[k]))
  }

  lemma RunsKeyGrows(keys: seq<Digest>, t: seq<Entry>, k: Digest, job: JobId, key: Digest, e: Entry)
    requires |t| == |keys|
    ensures RunsKey(keys, t, k, job) ==> RunsKey(keys + [key], t + [e], k, job)
    ensures e.Ran? ==> RunsKey(keys + [key], t + [e], key, e.job)
  {
    var longer, u := keys + [key], t + [e];
    if RunsKey(keys, t, k, job) {
      var r :| 0 <= r < |t| && t[r].Ran? && t[r].job == job && keys[r] == k;
      assert u[r] == t[r] && longer[r] == keys[r];
    }
    assert u[|t|] == e && longer[|t|] == key;
  }

  /** An entry that may come next: a run for a new key, or a joining for a known one. */
  ghost predicate Admissible(start: JobId, t: seq<Entry>, active: map<Digest, JobId>, key: Digest, e: Entry) {
    if e.Ran? then key !in active && e.job == start + RanCount(t) else key in active && e.job == active[key]
  }

  lemma EntryKeepsSuppressed(
      keys: seq<Digest>, start: JobId, t: seq<Entry>, active: map<Digest, JobId>, key: Digest, e: Entry)
    requires Suppressed(keys, start, t) && ActiveKeys(keys, t, active) && Admissible(start, t, active, key, e)
    ensures Suppressed(keys + [key], start, t + [e])
  {
    hide RanCount, RunsKey;
    var longer, u := keys + [key], t + [e];
    forall i | 0 <= i < |u|
      ensures u[i].Ran? <==> FirstOfKey(longer, i)
      ensures u[i].Ran? ==> u[i].job == start + RanCount(u[..i])
      ensures u[i].Joined? ==> RunsKey(longer[..i], u[..i], longer[i], u[i].job)
    {
      assert u[..i] == t[..i] && longer[..i] == keys[..i];
      if i == |t| {
        assert t[..i] == t && keys[..i] == keys;
      } else {
        assert u[i] == t[i] && longer[i] == keys[i];
      }
    }
  }

  lemma EntryKeepsActive(
      keys: seq<Digest>, start: JobId, t: seq<Entry>, active: map<Digest, JobId>, key: Digest, e: Entry)
    requires |t| == |keys| && ActiveKeys(keys, t, active) && Admissible(start, t, active, key, e)
    ensures ActiveKeys(keys + [key], t + [e], if e.Ran? then active[key := e.job] else active)
  {
    hide RanCount, RunsKey;
    var longer, u := keys + [key], t + [e];
    var active' := if e.Ran? then active[key := e.job] else active;
    assert forall k :: k in longer <==> k in keys || k == key;
    forall k | k in active'
      ensures RunsKey(longer, u, k, active'[k])
    {
      RunsKeyGrows(keys, t, k, active'[k], key, e);
    }
  }

  ghost function KeysOf(nodes: map<NodeId, BuildNode>, plan: seq<NodeId>): (keys: seq<Digest>)
    requires forall n :: n in plan ==> n in nodes
    ensures |keys| == |plan|
  {
    if plan == [] then [] else KeysOf(nodes, plan[..|plan| - 1]) + [KeyOf(nodes, plan[|plan| - 1])]
  }

  lemma {:induction false} KeyAt(nodes: map<NodeId, BuildNode>, plan: seq<NodeId>, i: nat)
    requires (forall n :: n in plan ==> n in nodes) && i < |plan|
    ensures KeysOf(nodes, plan)[i] == KeyOf(nodes, plan[i])
    decreases |plan|
  {
    hide KeyOf;
    if i < |plan| - 1 {
      KeyAt(nodes, plan[..|plan| - 1], i);
    }
  }

  lemma RunNodeEffect(env: Environment, p: BuildState, n: NodeId, node: BuildNode, key: Digest)
    ensures var q := RunNode(env, p, n, node, key);
      && q.trace == p.trace + [Ran(n, p.nextJob)]
      && q.active == p.active[key := p.nextJob] && q.nextJob == p.nextJob + 1
  {
    hide Upload, Validates;
    var (q, lease) := Begun(p, n, node, key);
    var result := env.run(p.calls, lease, JobSpec(p.nextJob, n, node.generation, key));
    if result.Some? {
      UploadKeepsLeases(env, q, result.value.artifacts);
    }
  }

  lemma RanCountSnoc(t: seq<Entry>, e: Entry)
    ensures RanCount(t + [e]) == RanCount(t) + if e.Ran? then 1 else 0
  {
    assert (t + [e])[..|t|] == t;
  }

  /** Actions whose key materials differ in one byte never share a job. */
  lemma OneByteApart(
      nodes: map<NodeId, BuildNode>, m: NodeId, n: NodeId, before: Str, x: byte, y: byte, after: Str)
    requires m in nodes && n in nodes && x != y
    requires Material(nodes[m].action, [], []) == before + [x] + after
    requires Material(nodes[n].action, [], []) == before + [y] + after
    ensures KeyOf(nodes, m) != KeyOf(nodes, n)
  {
    hide Material, DigestOf;
    OneByteChangesEveryWord(DOMAIN, before, x, y, after);
  }

  /** The trace covers the plan, or its beginning up to and including the run that failed. */
  ghost predicate Inv(nodes: map<NodeId, BuildNode>, plan: seq<NodeId>, start: JobId, p: BuildState)
    requires forall n :: n in plan ==> n in nodes
  {
    var m := |p.trace|;
    && m <= |plan| && (if p.failed then m > 0 && p.trace[m - 1].Ran? else m == |plan|)
    && (forall i :: 0 <= i < m ==> p.trace[i].node == plan[i])
    && Suppressed(KeysOf(nodes, plan[..m]), start, p.trace) && ActiveKeys(KeysOf(nodes, plan[..m]), p.trace, p.active)
    && p.nextJob == start + RanCount(p.trace)
  }

  lemma {:induction false} AfterKeepsInv(
      env: Environment, nodes: map<NodeId, BuildNode>, start: JobId, plan: seq<NodeId>)
    requires forall n :: n in plan ==> n in nodes
    ensures Inv(nodes, plan, start, After(env, nodes, Fresh(start), plan))
    decreases |plan|
  {
    hide KeyOf, RunNode, Suppressed, ActiveKeys;
    if plan == [] {
      NothingSuppressed(start);
    } else {
      var front, n := plan[..|plan| - 1], plan[|plan| - 1];
      AfterKeepsInv(env, nodes, start, front);
      var p := After(env, nodes, Fresh(start), front);
      assert front[..|p.trace|] == plan[..|p.trace|];
      if !p.failed {
        AdvanceKeepsInv(env, nodes, start, plan, p);
      }
    }
  }

  lemma AdvanceKeepsInv(env: Environment, nodes: map<NodeId, BuildNode>, start: JobId, plan: seq<NodeId>, p: BuildState)
    requires plan != [] && (forall n :: n in plan ==> n in nodes) && !p.failed
    requires Inv(nodes, plan[..|plan| - 1], start, p)
    ensures Inv(nodes, plan, start, Advance(env, nodes, p, plan[|plan| - 1]))
  {
    hide KeyOf, RunNode, Suppressed, ActiveKeys, RanCount;
    var front, n := plan[..|plan| - 1], plan[|plan| - 1];
    var k, q, keys := KeyOf(nodes, n), Advance(env, nodes, p, n), KeysOf(nodes, front);
    var e := if k in p.active then Joined(n, p.active[k]) else Ran(n, p.nextJob);
    assert front[..|front|] == front && plan[..|plan|] == plan;
    RunNodeEffect(env, p, n, nodes[n], k);
    RanCountSnoc(p.trace, e);
    EntryKeepsSuppressed(keys, start, p.trace, p.active, k, e);
    EntryKeepsActive(keys, start, p.trace, p.active, k, e);
    assert KeysOf(nodes, plan) == keys + [k];
    assert q.trace == p.trace + [e];
  }

  lemma NothingSuppressed(start: JobId)
    ensures Suppressed([], start, []) && ActiveKeys([], [], map[])
  {
  }

  /**
    On a build without a failure, every planned node has an entry: the executor ran exactly the first
    node of each distinct action key, in plan order, under consecutive fresh job ids, and every other
    node joined the job of an earlier run of its key.
   */
  lemma BuildSuppressesDuplicates(env: Environment, nodes: map<NodeId, BuildNode>, start: JobId, plan: seq<NodeId>)
    requires forall n :: n in plan ==> n in nodes
    requires !After(env, nodes, Fresh(start), plan).failed
    ensures var p := After(env, nodes, Fresh(start), plan);
      && |p.trace| == |plan| && (forall i :: 0 <= i < |plan| ==> p.trace[i].node == plan[i])
      && Suppressed(KeysOf(nodes, plan), start, p.trace) && p.nextJob == start + RanCount(p.trace)
  {
    hide Suppressed, ActiveKeys, After, KeysOf;
    AfterKeepsInv(env, nodes, start, plan);
    assert plan[..|plan|] == plan;
  }

  /**
    Whatever fails, when a node was run, each of its dependencies had been run, or had joined a run,
    before it.
   */
  lemma DependenciesServedFirst(
      es: seq<Edge>, targets: seq<NodeId>, env: Environment, nodes: map<NodeId, BuildNode>, start: JobId,
      plan: seq<NodeId>, p: BuildState, i: nat, dependency: NodeId) returns (d: nat, r: nat)
    requires IsPlan(es, targets, plan) && !Cyclic(es) && forall n :: n in plan ==> n in nodes
    requires p == After(env, nodes, Fresh(start), plan)
    requires i < |p.trace| && p.trace[i].Ran? && HasEdge(es, p.trace[i].node, dependency)
    ensures r <= d < i < |p.trace| <= |plan| && p.trace[d].node == dependency == plan[d]
    ensures p.trace[r].Ran? && p.trace[r].job == p.trace[d].job && KeyOf(nodes, plan[r]) == KeyOf(nodes, plan[d])
  {
    hide IsPlan, HasEdge, Cyclic, After, KeyOf, KeysOf, Suppressed, ActiveKeys, RanCount;
    AfterKeepsInv(env, nodes, start, plan);
    var t, begun := p.trace, plan[..|p.trace|];
    assert t[i].node == plan[i];
    d := DependencyBefore(es, targets, plan, i, dependency);
    r := RunBehind(KeysOf(nodes, begun), start, t, d);
    assert begun[r] == plan[r] && begun[d] == plan[d];
    KeyAt(nodes, begun, r);
    KeyAt(nodes, begun, d);
  }

  lemma DependencyBefore(es: seq<Edge>, targets: seq<NodeId>, plan: seq<NodeId>, i: nat, dependency: NodeId)
    returns (d: nat)
    requires IsPlan(es, targets, plan) && !Cyclic(es) && i < |plan| && HasEdge(es, plan[i], dependency)
    ensures d < i && plan[d] == dependency
  {
    hide Cyclic, Reaches;
    var k :| 0 <= k < |es| && es[k].from == plan[i] && es[k].to == dependency;
    assert dependency in plan[..i];
    d :| 0 <= d < i && plan[d] == dependency;
  }

  /** The run an entry stands on: itself, or the one it joined. */
  lemma RunBehind(keys: seq<Digest>, start: JobId, t: seq<Entry>, d: nat) returns (r: nat)
    requires Suppressed(keys, start, t) && d < |t|
    ensures r <= d && t[r].Ran? && t[r].job == t[d].job && keys[r] == keys[d]
  {
    if t[d].Ran? {
      r := d;
    } else {
      assert RunsKey(keys[..d], t[..d], keys[d], t[d].job);
      r :| 0 <= r < d && t[..d][r].Ran? && t[..d][r].job == t[d].job && keys[..d][r] == keys[d];
    }
  }

  // ---- What is reported ----

  /** The store accepts each of the artifacts, offered one after the other from upload number `from`. */
  predicate AllAccepted(env: Environment, from: nat, artifacts: seq<Str>) {
    forall i :: 0 <= i < |artifacts| ==> env.publish(from + i, artifacts[i]).Some?
  }

  lemma {:induction false} UploadFailsIff(env: Environment, p: BuildState, artifacts: seq<Str>)
    requires !p.failed
    ensures var q := Upload(env, p, artifacts);
      q.notices == p.notices && (q.failed <==> !AllAccepted(env, p.uploads, artifacts))
    decreases |artifacts|
  {
    if artifacts != [] {
      AcceptedTail(env, p.uploads, artifacts);
      match env.publish(p.uploads, artifacts[0])
      case None =>
      case Some(key) =>
        UploadFailsIff(env, p.(uploads := p.uploads + 1, artifacts := p.artifacts + [key]), artifacts[1..]);
    }
  }

  lemma AcceptedTail(env: Environment, from: nat, artifacts: seq<Str>)
    requires artifacts != []
    ensures AllAccepted(env, from, artifacts) <==>
      env.publish(from, artifacts[0]).Some? && AllAccepted(env, from + 1, artifacts[1..])
  {
    var rest := artifacts[1..];
    if AllAccepted(env, from, artifacts) {
      assert env.publish(from + 0, artifacts[0]).Some?;
      forall i | 0 <= i < |rest|
        ensures env.publish(from + 1 + i, rest[i]).Some?
      {
        assert env.publish(from + (i + 1), artifacts[i + 1]).Some?;
      }
    }
    if env.publish(from, artifacts[0]).Some? && AllAccepted(env, from + 1, rest) {
      forall i | 0 <= i < |artifacts|
        ensures env.publish(from + i, artifacts[i]).Some?
      {
        if i > 0 {
          assert env.publish(from + 1 + (i - 1), rest[i - 1]).Some?;
        }
      }
    }
  }

  /** The executor answered, its claim is that of the lease, and the store took every artifact. */
  predicate RunAccepted(env: Environment, p: BuildState, n: NodeId, node: BuildNode, key: Digest) {
    var (leases, lease) := Leased(p.leases, p.nextJob);
    var result := env.run(p.calls, lease, JobSpec(p.nextJob, n, node.generation, key));
    && result.Some? && Validates(leases, lease, result.value.claim)
    && AllAccepted(env, p.uploads, result.value.artifacts)
  }

  /** A run is reported as succeeded exactly when it is accepted, and otherwise as failed. */
  lemma RunReported(env: Environment, p: BuildState, n: NodeId, node: BuildNode, key: Digest)
    requires !p.failed
    ensures var q, ok := RunNode(env, p, n, node, key), RunAccepted(env, p, n, node, key);
      && q.failed == !ok
      && q.notices == p.notices + [RunningNotice(node.name), if ok then SucceededNotice(node.name) else FailedNotice]
  {
    hide Upload, Validates, AllAccepted;
    var (q, lease) := Begun(p, n, node, key);
    var result := env.run(p.calls, lease, JobSpec(p.nextJob, n, node.generation, key));
    if result.Some? {
      UploadFailsIff(env, q, result.value.artifacts);
    }
  }

  /** What a build reports for the nodes of a trace, if every run was accepted. */
  function Reports(nodes: map<NodeId, BuildNode>, t: seq<Entry>): seq<Notice>
    requires forall i :: 0 <= i < |t| ==> t[i].node in nodes
  {
    if t == [] then [] else
    var e := t[|t| - 1];
    Reports(nodes, t[..|t| - 1]) +
      if e.Joined? then [AttachedNotice] else [RunningNotice(nodes[e.node].name), SucceededNotice(nodes[e.node].name)]
  }

  predicate Reported(nodes: map<NodeId, BuildNode>, p: BuildState) {
    var t := p.trace;
    && (forall i :: 0 <= i < |t| ==> t[i].node in nodes)
    && (p.failed ==> t != [])
    && p.notices ==
       if p.failed then
         Reports(nodes, t[..|t| - 1]) + [RunningNotice(nodes[t[|t| - 1].node].name), FailedNotice]
       else Reports(nodes, t)
  }

  /**
    In every build each run node is reported as running and then as succeeded, each joined one as
    attached, in plan order; only the last run can be the one reported as failed.
   */
  lemma {:induction false} BuildReported(
      env: Environment, nodes: map<NodeId, BuildNode>, start: JobId, plan: seq<NodeId>)
    requires forall n :: n in plan ==> n in nodes
    ensures Reported(nodes, After(env, nodes, Fresh(start), plan))
    decreases |plan|
  {
    hide KeyOf, RunNode, RunAccepted;
    if plan != [] {
      var front, n := plan[..|plan| - 1], plan[|plan| - 1];
      BuildReported(env, nodes, start, front);
      var p := After(env, nodes, Fresh(start), front);
      if !p.failed {
        var key := KeyOf(nodes, n);
        var q := Advance(env, nodes, p, n);
        RunNodeEffect(env, p, n, nodes[n], key);
        RunReported(env, p, n, nodes[n], key);
        assert q.trace[..|q.trace| - 1] == p.trace;
      }
    }
  }

  /** An executor that claims every lease and says of every job that it failed. */
  function Pessimist(): Environment {
    Environment(
      (_, lease: WorkerLease, _) => Some(WorkerResult(Claim(lease.id, lease.attempt), false, [])),
      (_, _) => None)
  }

  /** A result that says it failed is reported as a success. */
  lemma FailureReportedAsSuccess(nodes: map<NodeId, BuildNode>, p: BuildState, n: NodeId)
    requires n in nodes && !p.failed && KeyOf(nodes, n) !in p.active
    ensures var q := Advance(Pessimist(), nodes, p, n);
      !q.failed && q.notices == p.notices + [RunningNotice(nodes[n].name), SucceededNotice(nodes[n].name)]
  {
    hide KeyOf, RunNode;
    RunReported(Pessimist(), p, n, nodes[n], KeyOf(nodes, n));
  }

  // ---- What is stored ----

  /** What the executor answers to the `r`-th run of a build, which is for node `n`: lease, job and key are given. */
  ghost function Answer(env: Environment, nodes: map<NodeId, BuildNode>, start: JobId, r: nat, n: NodeId)
    : Option<WorkerResult>
    requires n in nodes
  {
    env.run(r, WorkerLease(1 + r, start + r, 2, true), JobSpec(start + r, n, nodes[n].generation, KeyOf(nodes, n)))
  }

  /** The artifacts of the `r`-th run, if it answered with the claim of its lease. */
  ghost function Products(env: Environment, nodes: map<NodeId, BuildNode>, start: JobId, r: nat, n: NodeId): seq<Str>
    requires n in nodes
  {
    var answer := Answer(env, nodes, start, r, n);
    if answer.Some? && answer.value.claim == Claim(1 + r, 2) then answer.value.artifacts else []
  }

  /** The artifacts of all runs of a trace, run by run. */
  ghost function Offered(env: Environment, nodes: map<NodeId, BuildNode>, start: JobId, t: seq<Entry>): seq<Str>
    requires forall i :: 0 <= i < |t| ==> t[i].node in nodes
  {
    if t == [] then [] else
    var front, e := t[..|t| - 1], t[|t| - 1];
    Offered(env, nodes, start, front) + if e.Ran? then Products(env, nodes, start, RanCount(front), e.node) else []
  }

  /** The keys are what the store answered to the first offers, numbered from `from`. */
  predicate Stored(env: Environment, from: nat, offers: seq<Str>, keys: seq<nat>) {
    |keys| <= |offers| && forall i :: 0 <= i < |keys| ==> env.publish(from + i, offers[i]) == Some(keys[i])
  }

  lemma {:induction false} UploadStores(env: Environment, p: BuildState, artifacts: seq<Str>)
    requires !p.failed
    ensures var q := Upload(env, p, artifacts);
      && p.artifacts <= q.artifacts
      && var keys := q.artifacts[|p.artifacts|..];
         && Stored(env, p.uploads, artifacts, keys)
         && (!q.failed ==> |keys| == |artifacts| && q.uploads == p.uploads + |artifacts|)
         && (q.failed ==> |keys| < |artifacts| && env.publish(p.uploads + |keys|, artifacts[|keys|]).None?)
    decreases |artifacts|
  {
    hide Stored;
    StoredNothing(env, p.uploads, artifacts);
    if artifacts != [] {
      match env.publish(p.uploads, artifacts[0])
      case None =>
      case Some(key) =>
        var p' := p.(uploads := p.uploads + 1, artifacts := p.artifacts + [key]);
        UploadStores(env, p', artifacts[1..]);
        var q := Upload(env, p, artifacts);
        var keys, rest := q.artifacts[|p.artifacts|..], q.artifacts[|p'.artifacts|..];
        assert keys == [key] + rest;
        StoredCons(env, p.uploads, artifacts, key, rest);
    }
  }

  lemma StoredNothing(env: Environment, from: nat, offers: seq<Str>)
    ensures Stored(env, from, offers, [])
  {
  }

  lemma StoredCons(env: Environment, from: nat, offers: seq<Str>, key: nat, keys: seq<nat>)
    requires offers != [] && env.publish(from, offers[0]) == Some(key) && Stored(env, from + 1, offers[1..], keys)
    ensures Stored(env, from, offers, [key] + keys)
  {
    var all := [key] + keys;
    forall i | 0 <= i < |all|
      ensures env.publish(from + i, offers[i]) == Some(all[i])
    {
      if i > 0 {
        assert env.publish(from + 1 + (i - 1), offers[1..][i - 1]) == Some(keys[i - 1]);
      }
    }
  }

  lemma StoredConcat(env: Environment, offers: seq<Str>, keys: seq<nat>, more: seq<Str>, moreKeys: seq<nat>)
    requires Stored(env, 0, offers, keys) && |keys| == |offers| && Stored(env, |offers|, more, moreKeys)
    ensures Stored(env, 0, offers + more, keys + moreKeys)
  {
    var os, ks := offers + more, keys + moreKeys;
    forall i | 0 <= i < |ks|
      ensures env.publish(0 + i, os[i]) == Some(ks[i])
    {
      if i < |keys| {
        assert env.publish(0 + i, offers[i]) == Some(keys[i]);
      } else {
        assert env.publish(|offers| + (i - |keys|), more[i - |keys|]) == Some(moreKeys[i - |keys|]);
      }
    }
  }

  /** The counters of the build: runs number the calls, the leases and the jobs. */
  ghost predicate Counted(start: JobId, p: BuildState) {
    var r := RanCount(p.trace);
    && p.calls == r && p.nextJob == start + r && p.leases.nextLease == 1 + r
    && forall j :: j in p.leases.attempts ==> j < p.nextJob
  }

  /** The keys kept are the store's answers to the offers of the runs; all of them, unless the last run failed. */
  ghost predicate Kept(env: Environment, nodes: map<NodeId, BuildNode>, start: JobId, p: BuildState) {
    && (forall i :: 0 <= i < |p.trace| ==> p.trace[i].node in nodes)
    && var offers := Offered(env, nodes, start, p.trace);
       && Stored(env, 0, offers, p.artifacts)
       && (!p.failed ==> |p.artifacts| == |offers| == p.uploads)
       && (|p.artifacts| < |offers| ==> p.failed && env.publish(|p.artifacts|, offers[|p.artifacts|]).None?)
       && (p.failed ==>
             p.trace != [] && |Offered(env, nodes, start, p.trace[..|p.trace| - 1])| <= |p.artifacts|)
  }

  lemma BegunCounted(start: JobId, p: BuildState, n: NodeId, node: BuildNode, key: Digest)
    requires Counted(start, p)
    ensures var (q, lease), r := Begun(p, n, node, key), RanCount(p.trace);
      Counted(start, q) && lease == WorkerLease(1 + r, start + r, 2, true) && p.calls == r && p.nextJob == start + r
  {
    hide RanCount;
    RanCountSnoc(p.trace, Ran(n, p.nextJob));
  }

  /** A run that is not accepted before its uploads, or whose uploads give `u`. */
  lemma RunCases(env: Environment, p: BuildState, n: NodeId, node: BuildNode, key: Digest)
    requires !p.failed
    ensures var (q, lease), u := Begun(p, n, node, key), RunNode(env, p, n, node, key);
      var answer := env.run(p.calls, lease, JobSpec(p.nextJob, n, node.generation, key));
      var accepted := answer.Some? && answer.value.claim == Claim(lease.id, lease.attempt);
      var v := if accepted then Upload(env, q, answer.value.artifacts) else q.(failed := true);
      u == v.(notices := u.notices)
  {
    hide Upload;
  }

  /** A run that offered `made`, of which the store took `keys`. */
  lemma OfferKept(
      env: Environment, nodes: map<NodeId, BuildNode>, start: JobId, p: BuildState, u: BuildState, e: Entry,
      keys: seq<nat>)
    requires !p.failed && Kept(env, nodes, start, p) && e.Ran? && e.node in nodes && u.trace == p.trace + [e]
    requires u.artifacts == p.artifacts + keys
    requires var made := Products(env, nodes, start, RanCount(p.trace), e.node);
      && Stored(env, p.uploads, made, keys)
      && (!u.failed ==> |keys| == |made| && u.uploads == p.uploads + |made|)
      && (|keys| < |made| ==> u.failed && env.publish(p.uploads + |keys|, made[|keys|]).None?)
    ensures Kept(env, nodes, start, u)
  {
    hide Stored, RanCount, Products, Offered;
    var before, made := Offered(env, nodes, start, p.trace), Products(env, nodes, start, RanCount(p.trace), e.node);
    OfferedSnoc(env, nodes, start, p.trace, e);
    StoredConcat(env, before, p.artifacts, made, keys);
    assert u.trace[..|u.trace| - 1] == p.trace;
  }

  lemma RunKept(env: Environment, nodes: map<NodeId, BuildNode>, start: JobId, p: BuildState, n: NodeId)
    requires n in nodes && !p.failed && Counted(start, p) && Kept(env, nodes, start, p)
    ensures var q := RunNode(env, p, n, nodes[n], KeyOf(nodes, n)); Counted(start, q) && Kept(env, nodes, start, q)
  {
    hide Upload, KeyOf, Stored, RanCount, RunNode, Kept;
    var key, node, r := KeyOf(nodes, n), nodes[n], RanCount(p.trace);
    var (q, lease) := Begun(p, n, node, key);
    var u := RunNode(env, p, n, node, key);
    BegunCounted(start, p, n, node, key);
    RunCases(env, p, n, node, key);
    KeptUploads(env, nodes, start, p);
    var answer, made := Answer(env, nodes, start, r, n), Products(env, nodes, start, r, n);
    if answer.Some? && answer.value.claim == Claim(1 + r, 2) {
      UploadStores(env, q, made);
      UploadKeepsLeases(env, q, made);
      UploadKeepsCalls(env, q, made);
      var keys := u.artifacts[|p.artifacts|..];
      assert u.artifacts == p.artifacts + keys;
      OfferKept(env, nodes, start, p, u, Ran(n, p.nextJob), keys);
    } else {
      StoredNothing(env, p.uploads, made);
      assert u.artifacts == p.artifacts + [];
      OfferKept(env, nodes, start, p, u, Ran(n, p.nextJob), []);
    }
  }

  lemma KeptUploads(env: Environment, nodes: map<NodeId, BuildNode>, start: JobId, p: BuildState)
    requires Kept(env, nodes, start, p) && !p.failed
    ensures p.uploads == |p.artifacts|
  {
  }

  lemma OfferedSnoc(env: Environment, nodes: map<NodeId, BuildNode>, start: JobId, t: seq<Entry>, e: Entry)
    requires (forall i :: 0 <= i < |t| ==> t[i].node in nodes) && e.node in nodes
    ensures forall i :: 0 <= i < |t + [e]| ==> (t + [e])[i].node in nodes
    ensures (t + [e])[..|t|] == t
    ensures Offered(env, nodes, start, t + [e]) == Offered(env, nodes, start, t) +
      if e.Ran? then Products(env, nodes, start, RanCount(t), e.node) else []
  {
    hide Products, RanCount;
    assert (t + [e])[..|t|] == t;
  }

  lemma {:induction false} UploadKeepsCalls(env: Environment, p: BuildState, artifacts: seq<Str>)
    ensures Upload(env, p, artifacts).calls == p.calls
    decreases |artifacts|
  {
    if artifacts != [] {
      match env.publish(p.uploads, artifacts[0])
      case None =>
      case Some(key) =>
        UploadKeepsCalls(env, p.(uploads := p.uploads + 1, artifacts := p.artifacts + [key]), artifacts[1..]);
    }
  }

  /**
    In every build the artifacts are, in order, the keys the store gave to the artifacts of the runs, offered
    run by run under the upload numbers 0, 1, 2, ...: all of them without a failure, and otherwise those of the
    runs before the failed one and of the failed one up to the refusal.
   */
  lemma {:induction false} ArtifactsKept(
      env: Environment, nodes: map<NodeId, BuildNode>, start: JobId, plan: seq<NodeId>)
    requires forall n :: n in plan ==> n in nodes
    ensures var p := After(env, nodes, Fresh(start), plan); Counted(start, p) && Kept(env, nodes, start, p)
    decreases |plan|
  {
    hide KeyOf, RunNode, Stored, Counted, Kept;
    if plan == [] {
      NothingKept(env, nodes, start);
    } else {
      var front, n := plan[..|plan| - 1], plan[|plan| - 1];
      ArtifactsKept(env, nodes, start, front);
      var p := After(env, nodes, Fresh(start), front);
      if !p.failed {
        if KeyOf(nodes, n) in p.active {
          JoinKept(env, nodes, start, p, n);
        } else {
          RunKept(env, nodes, start, p, n);
        }
      }
    }
  }

  lemma NothingKept(env: Environment, nodes: map<NodeId, BuildNode>, start: JobId)
    ensures Counted(start, Fresh(start)) && Kept(env, nodes, start, Fresh(start))
  {
  }

  lemma JoinKept(env: Environment, nodes: map<NodeId, BuildNode>, start: JobId, p: BuildState, n: NodeId)
    requires n in nodes && KeyOf(nodes, n) in p.active && !p.failed && Counted(start, p) && Kept(env, nodes, start, p)
    ensures var q := Advance(env, nodes, p, n); Counted(start, q) && Kept(env, nodes, start, q)
  {
    hide KeyOf, Stored, RanCount;
    var e := Joined(n, p.active[KeyOf(nodes, n)]);
    RanCountSnoc(p.trace, e);
    OfferedSnoc(env, nodes, start, p.trace, e);
    var offers := Offered(env, nodes, start, p.trace);
    assert offers + [] == offers;
  }

  /** The same answers, except perhaps for the success flags. */
  ghost predicate AgreeUpToSuccess(a: Environment, b: Environment) {
    && a.publish == b.publish
    && forall call, lease, spec :: SameAnswer(a.run(call, lease, spec), b.run(call, lease, spec))
  }

  predicate SameAnswer(r: Option<WorkerResult>, q: Option<WorkerResult>) {
    && (r.None? <==> q.None?)
    && (r.Some? ==> r.value.claim == q.value.claim && r.value.artifacts == q.value.artifacts)
  }

  lemma {:induction false} UploadDependsOnStore(a: Environment, b: Environment, p: BuildState, artifacts: seq<Str>)
    requires a.publish == b.publish
    ensures Upload(a, p, artifacts) == Upload(b, p, artifacts)
    decreases |artifacts|
  {
    if artifacts != [] && a.publish(p.uploads, artifacts[0]).Some? {
      var key := a.publish(p.uploads, artifacts[0]).value;
      UploadDependsOnStore(a, b, p.(uploads := p.uploads + 1, artifacts := p.artifacts + [key]), artifacts[1..]);
    }
  }

  lemma RunNodeIgnoresSuccess(a: Environment, b: Environment, p: BuildState, n: NodeId, node: BuildNode, key: Digest)
    requires AgreeUpToSuccess(a, b)
    ensures RunNode(a, p, n, node, key) == RunNode(b, p, n, node, key)
  {
    hide Upload, Validates;
    var (q, lease) := Begun(p, n, node, key);
    var spec := JobSpec(p.nextJob, n, node.generation, key);
    assert SameAnswer(a.run(p.calls, lease, spec), b.run(p.calls, lease, spec));
    var r := a.run(p.calls, lease, spec);
    if r.Some? {
      UploadDependsOnStore(a, b, q, r.value.artifacts);
    }
  }

  /** A worker's success flag changes nothing in any build. */
  lemma {:induction false} SuccessIsIgnored(
      a: Environment, b: Environment, nodes: map<NodeId, BuildNode>, p: BuildState, plan: seq<NodeId>)
    requires AgreeUpToSuccess(a, b) && forall n :: n in plan ==> n in nodes
    ensures After(a, nodes, p, plan) == After(b, nodes, p, plan)
    decreases |plan|
  {
    hide RunNode, KeyOf, AgreeUpToSuccess;
    if plan != [] {
      var front, n := plan[..|plan| - 1], plan[|plan| - 1];
      SuccessIsIgnored(a, b, nodes, p, front);
      RunNodeIgnoresSuccess(a, b, After(a, nodes, p, front), n, nodes[n], KeyOf(nodes, n));
    }
  }
}
