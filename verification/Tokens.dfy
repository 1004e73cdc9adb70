/**
  The two token machines: completion tokens of the file-event coalescer, and attempt generations of
  worker leases. Generations start at 1 and are unbounded here.
 */
module Coalescer {
  import opened Words
  import opened Actions

  datatype FileEventKind = Create | Modify | Remove | Rename

  datatype CoalescedEvent = CoalescedEvent(path: Str, mergedKind: set<FileEventKind>, token: nat, dueTime: nat)

  datatype Fingerprint = Fingerprint(path: Str, digest: nat, size: u64, epoch: nat)

  datatype State = State(pending: map<Str, CoalescedEvent>, fingerprints: map<Str, Fingerprint>)

  function Entry(s: State, path: Str): CoalescedEvent {
    if path in s.pending then s.pending[path] else CoalescedEvent([], {}, 1, 0)
  }

  function Pushed(s: State, debounce: nat, path: Str, kind: FileEventKind, now: nat): State {
    var e := Entry(s, path);
    s.(pending := s.pending[path := CoalescedEvent(path, e.mergedKind + {kind}, e.token + 1, now + debounce)])
  }

  predicate Current(s: State, e: CoalescedEvent) {
    e.path in s.pending && s.pending[e.path].token == e.token
  }

  function Completed(s: State, e: CoalescedEvent, f: Fingerprint): State {
    if !Current(s, e) then s else
    var epoch := if e.path in s.fingerprints then s.fingerprints[e.path].epoch + 1 else 1;
    State(s.pending - {e.path}, s.fingerprints[e.path := f.(epoch := epoch)])
  }

  class FileEventCoalescer {
    const debounce: nat
    var pending: map<Str, CoalescedEvent>
    var fingerprints: map<Str, Fingerprint>

    constructor (debounce: nat)
      ensures this.debounce == debounce && Contents() == State(map[], map[])
    {
      this.debounce := debounce;
      pending, fingerprints := map[], map[];
    }

    ghost function Contents(): State
      reads this
    {
      State(pending, fingerprints)
    }

    method Push(path: Str, kind: FileEventKind, now: nat) returns (e: CoalescedEvent)
      modifies this
      ensures Contents() == Pushed(old(Contents()), debounce, path, kind, now) && pending[path] == e
    {
      var entry := if path in pending then pending[path] else CoalescedEvent([], {}, 1, 0);
      entry := entry.(path := path);
      entry := entry.(mergedKind := entry.mergedKind + {kind});
      entry := entry.(token := entry.token + 1);
      entry := entry.(dueTime := now + debounce);
      pending := pending[path := entry];
      e := entry;
    }

    /** Exactly the pending events whose quiet period is over. */
    method Due(now: nat) returns (ready: set<CoalescedEvent>)
      ensures forall e :: e in ready <==> exists p :: p in pending && pending[p] == e && e.dueTime <= now
    {
      ready := {};
      var rest := pending.Keys;
      while rest != {}
        invariant rest <= pending.Keys
        invariant forall e :: e in ready <==>
          exists p :: p in pending && p !in rest && pending[p] == e && e.dueTime <= now
        decreases |rest|
      {
        var p :| p in rest;
        if pending[p].dueTime <= now {
          ready := ready + {pending[p]};
        }
        rest := rest - {p};
      }
    }

    method Complete(e: CoalescedEvent, f: Fingerprint) returns (ok: bool)
      modifies this
      ensures ok <==> Current(old(Contents()), e)
      ensures Contents() == Completed(old(Contents()), e, f)
    {
      if e.path !in pending || pending[e.path].token != e.token {
        return false;
      }
      var stored := f.(epoch := if e.path in fingerprints then fingerprints[e.path].epoch + 1 else 1);
      fingerprints := fingerprints[e.path := stored];
      pending := pending - {e.path};
      ok := true;
    }
  }

  // ---- Runs ----

  datatype Op =
    | Push(path: Str, kind: FileEventKind, now: nat)
    | Complete(event: CoalescedEvent, fingerprint: Fingerprint)

  function Run(debounce: nat, ops: seq<Op>): State {
    if ops == [] then State(map[], map[]) else
    var s := Run(debounce, ops[..|ops| - 1]);
    match ops[|ops| - 1]
    case Push(p, k, now) => Pushed(s, debounce, p, k, now)
    case Complete(e, f) => Completed(s, e, f)
  }

  /**
    For one path: the pushes since its last accepted completion, what they were and when the last one
    was; the number of accepted completions, and what the last of them brought.
   */
  datatype Tally = Tally(
    pushes: nat, kinds: set<FileEventKind>, last: nat, completions: nat, brought: Option<Fingerprint>)

  /** A completion is accepted only if its token counts every push since the last accepted one. */
  predicate Counts(t: Tally, token: nat) {
    t.pushes > 0 && token == 1 + t.pushes
  }

  function TallyOf(ops: seq<Op>, path: Str): Tally {
    if ops == [] then Tally(0, {}, 0, 0, None) else
    var t := TallyOf(ops[..|ops| - 1], path);
    match ops[|ops| - 1]
    case Push(p, k, now) => if p == path then t.(pushes := t.pushes + 1, kinds := t.kinds + {k}, last := now) else t
    case Complete(e, f) =>
      if e.path == path && Counts(t, e.token) then Tally(0, {}, 0, t.completions + 1, Some(f)) else t
  }

  lemma {:induction false} RunTallies(debounce: nat, ops: seq<Op>, path: Str)
    ensures var s, t := Run(debounce, ops), TallyOf(ops, path);
      && (path in s.pending <==> t.pushes > 0)
      && (t.pushes == 0 ==> t.kinds == {})
      && (path in s.pending ==> s.pending[path] == CoalescedEvent(path, t.kinds, 1 + t.pushes, t.last + debounce))
      && (path in s.fingerprints <==> t.completions > 0) && (t.completions > 0 <==> t.brought.Some?)
      && (path in s.fingerprints ==> s.fingerprints[path] == t.brought.value.(epoch := t.completions))
  {
    if ops != [] {
      RunTallies(debounce, ops[..|ops| - 1], path);
    }
  }

  /** In every run: accepted if and only if the token counts all pushes since the last acceptance. */
  lemma AcceptedIffCurrent(debounce: nat, ops: seq<Op>, e: CoalescedEvent)
    ensures Current(Run(debounce, ops), e) <==> Counts(TallyOf(ops, e.path), e.token)
  {
    RunTallies(debounce, ops, e.path);
  }
}

module Leases {
  type JobId = nat
  type LeaseId = nat

  datatype WorkerLease = WorkerLease(id: LeaseId, job: JobId, attempt: nat, active: bool)

  /** The parts of a worker's result that validation looks at. */
  datatype Claim = Claim(lease: LeaseId, attempt: nat)

  datatype State = State(nextLease: LeaseId, attempts: map<JobId, nat>)

  function Leased(s: State, job: JobId): (State, WorkerLease) {
    var attempt := (if job in s.attempts then s.attempts[job] else 1) + 1;
    (State(s.nextLease + 1, s.attempts[job := attempt]), WorkerLease(s.nextLease, job, attempt, true))
  }

  predicate Validates(s: State, l: WorkerLease, c: Claim) {
    && l.active && c.lease == l.id && c.attempt == l.attempt
    && l.job in s.attempts && s.attempts[l.job] == l.attempt
  }

  class ExecutorManager {
    var nextLease: LeaseId
    var attempts: map<JobId, nat>

    constructor ()
      ensures Contents() == State(1, map[])
    {
      nextLease, attempts := 1, map[];
    }

    ghost function Contents(): State
      reads this
    {
      State(nextLease, attempts)
    }

    method Lease(job: JobId) returns (l: WorkerLease)
      modifies this
      ensures (Contents(), l) == Leased(old(Contents()), job)
    {
      var attempt := (if job in attempts then attempts[job] else 1) + 1;
      attempts := attempts[job := attempt];
      l := WorkerLease(nextLease, job, attempt, true);
      nextLease := nextLease + 1;
    }

    method ValidateCurrent(l: WorkerLease, c: Claim) returns (ok: bool)
      ensures ok <==> Validates(Contents(), l, c)
    {
      if !l.active || c.lease != l.id || c.attempt != l.attempt {
        return false;
      }
      ok := l.job in attempts && attempts[l.job] == l.attempt;
    }

    method Revoke(l: WorkerLease)
      modifies this
      ensures Contents() == State(old(nextLease), old(attempts) - {l.job})
    {
      attempts := attempts - {l.job};
    }
  }

  // ---- Runs ----

  datatype Op = Issue(job: JobId) | Withdraw(lease: WorkerLease)

  /** The state and all leases issued so far. */
  function Run(ops: seq<Op>): (State, seq<WorkerLease>) {
    if ops == [] then (State(1, map[]), []) else
    var (s, issued) := Run(ops[..|ops| - 1]);
    match ops[|ops| - 1]
    case Issue(job) => var (s', l) := Leased(s, job); (s', issued + [l])
    case Withdraw(l) => (s.(attempts := s.attempts - {l.job}), issued)
  }

  /** Leases issued for the job since it was last revoked. */
  function SinceRevoked(ops: seq<Op>, job: JobId): nat {
    if ops == [] then 0 else
    var n := SinceRevoked(ops[..|ops| - 1], job);
    match ops[|ops| - 1]
    case Issue(j) => if j == job then n + 1 else n
    case Withdraw(l) => if l.job == job then 0 else n
  }

  /** Lease ids are 1, 2, 3, ... in the order of issue: no two leases share one. */
  lemma {:induction false} LeaseIdsCount(ops: seq<Op>)
    ensures var (s, issued) := Run(ops);
      s.nextLease == |issued| + 1 && forall i :: 0 <= i < |issued| ==> issued[i].id == i + 1
  {
    if ops != [] {
      LeaseIdsCount(ops[..|ops| - 1]);
    }
  }

  predicate NeverRevoked(ops: seq<Op>, job: JobId) {
    forall i :: 0 <= i < |ops| ==> !(ops[i].Withdraw? && ops[i].lease.job == job)
  }

  lemma {:induction false} AttemptsCount(ops: seq<Op>, job: JobId)
    ensures var s, n := Run(ops).0, SinceRevoked(ops, job);
      (job in s.attempts <==> n > 0) && (job in s.attempts ==> s.attempts[job] == 1 + n)
  {
    if ops != [] {
      AttemptsCount(ops[..|ops| - 1], job);
    }
  }

  /**
    A lease issued after `before` and presented after any `later` calls validates a claim if and only if
    the claim is the lease's own and as many leases of its job have been issued since the last revocation
    as there were at its issue.
   */
  lemma LeaseValidatesIff(before: seq<Op>, job: JobId, later: seq<Op>, c: Claim)
    ensures var l, all := Leased(Run(before).0, job).1, before + [Issue(job)] + later;
      Validates(Run(all).0, l, c) <==>
        c == Claim(l.id, l.attempt) && SinceRevoked(all, job) == SinceRevoked(before, job) + 1
  {
    AttemptsCount(before, job);
    AttemptsCount(before + [Issue(job)] + later, job);
  }

  predicate Issues(op: Op, job: JobId) {
    op == Issue(job)
  }

  lemma {:induction false} SinceRevokedGrows(ops: seq<Op>, later: seq<Op>, job: JobId)
    requires NeverRevoked(later, job)
    ensures var n, m := SinceRevoked(ops, job), SinceRevoked(ops + later, job);
      m >= n && (m == n <==> forall i :: 0 <= i < |later| ==> !Issues(later[i], job))
    decreases |later|
  {
    if later == [] {
      assert ops + later == ops;
    } else {
      var front, last := later[..|later| - 1], later[|later| - 1];
      SinceRevokedGrows(ops, front, job);
      assert (ops + later)[..|ops + later| - 1] == ops + front;
      assert forall i :: 0 <= i < |later| ==> later[i] == if i < |front| then front[i] else last;
    }
  }

  /** Of all leases of a job that is not revoked, only the newest validates. */
  lemma OnlyNewestValidates(before: seq<Op>, job: JobId, later: seq<Op>)
    requires NeverRevoked(later, job)
    ensures var l, all := Leased(Run(before).0, job).1, before + [Issue(job)] + later;
      Validates(Run(all).0, l, Claim(l.id, l.attempt)) <==> forall i :: 0 <= i < |later| ==> !Issues(later[i], job)
  {
    var first := before + [Issue(job)];
    assert first[..|first| - 1] == before;
    var l := Leased(Run(before).0, job).1;
    LeaseValidatesIff(before, job, later, Claim(l.id, l.attempt));
    SinceRevokedGrows(first, later, job);
  }

  /**
    After a revocation attempts start again: in any history that leaves the job without a lease, one
    issued, revoked and issued again leaves two different leases that both validate.
   */
  lemma RevokedLeaseRevives(before: seq<Op>, job: JobId)
    requires SinceRevoked(before, job) == 0
    ensures var l := Leased(Run(before).0, job).1;
      var revoked := before + [Issue(job)] + [Withdraw(l)];
      var next, s := Leased(Run(revoked).0, job).1, Run(revoked + [Issue(job)]).0;
      l.id != next.id && Validates(s, l, Claim(l.id, l.attempt)) && Validates(s, next, Claim(next.id, next.attempt))
  {
    var l := Leased(Run(before).0, job).1;
    var first := before + [Issue(job)];
    var revoked := first + [Withdraw(l)];
    var all := revoked + [Issue(job)];
    assert first[..|first| - 1] == before && revoked[..|revoked| - 1] == first && all[..|all| - 1] == revoked;
    assert all == first + [Withdraw(l), Issue(job)] && all == revoked + [Issue(job)] + [];
    LeaseValidatesIff(before, job, [Withdraw(l), Issue(job)], Claim(l.id, l.attempt));
    var next := Leased(Run(revoked).0, job).1;
    LeaseValidatesIff(revoked, job, [], Claim(next.id, next.attempt));
  }
}
