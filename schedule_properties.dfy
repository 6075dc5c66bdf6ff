/**
 Properties of the scheduler operations of ScheduleState: the invariant each
 operation preserves, the converse that RemoveJob breaks, the round trips of
 the dependency edits, FIFO order among ready jobs, and the invariant over any
 run of operations.
 */
module ScheduleProperties {
  import opened Options
  import opened ScheduleState

  // ---------------------------------------------------------------------------
  // The queue
  // ---------------------------------------------------------------------------

  /** Removing the first occurrence of `x` cuts out exactly its first
      position and keeps every other entry in its order. */
  lemma {:induction false} RemoveFirstAt(q: seq<string>, x: string, i: nat)
    requires i < |q| && q[i] == x
    requires forall k :: 0 <= k < i ==> q[k] != x
    ensures RemoveFirst(q, x) == q[..i] + q[i + 1..]
  {
    if i > 0 {
      var t := q[1..];
      assert forall k :: 0 <= k < i - 1 ==> t[k] == q[k + 1];
      RemoveFirstAt(t, x, i - 1);
      assert RemoveFirst(q, x) == [q[0]] + RemoveFirst(t, x);
      var a := [q[0]] + (t[..i - 1] + t[i..]);
      var b := q[..i] + q[i + 1..];
      assert |a| == |b|;
      forall k | 0 <= k < |a|
        ensures a[k] == b[k]
      {
      }
    }
  }

  /** Cutting one position out of a queue of distinct registered ids leaves
      a queue of distinct registered ids without that id. */
  lemma CutKeepsQueueSound(q: seq<string>, i: nat, c: seq<string>, jobs: Index, keys: set<string>)
    requires i < |q| && c == q[..i] + q[i + 1..]
    requires forall k :: 0 <= k < |q| ==> q[k] in jobs
    requires forall a, b :: 0 <= a < b < |q| ==> q[a] != q[b]
    requires forall k :: k in jobs && k != q[i] ==> k in keys
    ensures forall k :: 0 <= k < |c| ==> c[k] in keys
    ensures forall a, b :: 0 <= a < b < |c| ==> c[a] != c[b]
  {
    forall k | 0 <= k < |c|
      ensures c[k] == q[if k < i then k else k + 1]
    {
    }
  }

  // ---------------------------------------------------------------------------
  // One step of each loop of the scheduler methods
  // ---------------------------------------------------------------------------

  lemma ElementsSnoc(xs: seq<string>, x: string)
    ensures Elements(xs + [x]) == Elements(xs) + {x}
  {
    assert forall y :: y in xs + [x] <==> y in xs || y == x;
  }

  /** Registering under one more id is one more update of the index. */
  lemma RegisterStep(idx: Index, ds: set<string>, d: string, id: string)
    ensures Register(idx, ds + {d}, id) == Register(idx, ds, id)[d := Lookup(Register(idx, ds, id), d) + {id}]
  {
    var a := Register(idx, ds + {d}, id);
    var b := Register(idx, ds, id)[d := Lookup(Register(idx, ds, id), d) + {id}];
    assert a.Keys == b.Keys;
    forall k | k in a
      ensures a[k] == b[k]
    {
    }
  }

  /** Unregistering from one more entry is one more update of the index:
      the entry loses `id` and is deleted when nothing is left in it. */
  lemma UnregisterStep(idx: Index, done: set<string>, d: string, id: string)
    requires d !in done
    ensures var r := Unregister(idx, done, id);
      Unregister(idx, done + {d}, id) ==
        if d !in r then r
        else if r[d] - {id} == {} then r - {d}
        else r[d := r[d] - {id}]
  {
    var r := Unregister(idx, done, id);
    var a := Unregister(idx, done + {d}, id);
    var b := if d !in r then r else if r[d] - {id} == {} then r - {d} else r[d := r[d] - {id}];
    assert a.Keys == b.Keys;
    forall k | k in a
      ensures a[k] == b[k]
    {
    }
  }

  /** Clearing the dependency from one more job is one more update. */
  lemma ClearStep(jobs: Index, done: set<string>, d: string, p: string)
    requires d in jobs
    ensures Clear(jobs, done + {d}, p) == Clear(jobs, done, p)[d := Clear(jobs, done, p)[d] - {p}]
  {
    var a := Clear(jobs, done + {d}, p);
    var b := Clear(jobs, done, p)[d := Clear(jobs, done, p)[d] - {p}];
    assert a.Keys == b.Keys;
    forall k | k in a
      ensures a[k] == b[k]
    {
    }
  }

  // ---------------------------------------------------------------------------
  // The invariant, operation by operation
  // ---------------------------------------------------------------------------

  lemma EmptyIsSound()
    ensures Inv(Empty) && IndexComplete(Empty)
  {
  }

  /** AddJob with a fresh id keeps the invariant. */
  lemma AddJobPreservesInv(s: Sched, id: string, deps: seq<string>)
    requires Inv(s) && id !in s.jobs
    ensures Inv(AddJob(s, id, deps))
  {
    var r := AddJob(s, id, deps);
    forall d, j | d in r.dependents && j in r.dependents[d]
      ensures j in r.jobs && d in r.jobs[j]
    {
      if d in deps {
        assert j == id || j in s.dependents[d];
      } else {
        assert j in Lookup(s.dependents, d);
      }
    }
  }

  /** RemoveJob keeps the invariant: the removed id leaves the queue along with
      its only entry, and no reverse-index entry still lists it. */
  lemma RemoveJobPreservesInv(s: Sched, id: string)
    requires Inv(s)
    ensures Inv(RemoveJob(s, id))
  {
    if id in s.jobs {
      RemoveJobKeepsIndexSound(s, id);
      RemoveJobKeepsQueueSound(s, id);
    }
  }

  /** RemoveJob leaves no entry listing a job that is gone or no longer waits. */
  lemma RemoveJobKeepsIndexSound(s: Sched, id: string)
    requires IndexSound(s) && id in s.jobs
    ensures IndexSound(RemoveJob(s, id))
  {
    var r := RemoveJob(s, id);
    var u := Unregister(s.dependents, s.jobs[id], id);
    assert r.dependents == u - {id};
    forall d, j | d in r.dependents && j in r.dependents[d]
      ensures j in r.jobs && d in r.jobs[j]
    {
      assert d in u && j in u[d];
      assert d in s.dependents && j in s.dependents[d];
      assert j != id;
    }
  }

  lemma RemoveJobKeepsQueueSound(s: Sched, id: string)
    requires QueueSound(s) && id in s.jobs
    ensures QueueSound(RemoveJob(s, id))
  {
    RemoveFirstKeepsSound(s.queue, s.jobs.Keys, id);
  }

  /** Removing the only occurrence of `x` from a queue of distinct ids of
      `keys` leaves a queue of distinct ids of `keys` other than `x`. */
  lemma RemoveFirstKeepsSound(q: seq<string>, keys: set<string>, x: string)
    requires forall k :: 0 <= k < |q| ==> q[k] in keys
    requires forall a, b :: 0 <= a < b < |q| ==> q[a] != q[b]
    ensures forall k :: 0 <= k < |RemoveFirst(q, x)| ==> RemoveFirst(q, x)[k] in keys - {x}
    ensures forall a, b :: 0 <= a < b < |RemoveFirst(q, x)| ==> RemoveFirst(q, x)[a] != RemoveFirst(q, x)[b]
  {
    var r := RemoveFirst(q, x);
    if x in q {
      var i :| 0 <= i < |q| && q[i] == x;
      RemoveFirstAt(q, x, i);
      forall k | 0 <= k < |r|
        ensures r[k] == q[if k < i then k else k + 1]
      {
      }
      forall a, b | 0 <= a < b < |r|
        ensures r[a] != r[b]
      {
        assert r[a] == q[if a < i then a else a + 1];
        assert r[b] == q[if b < i then b else b + 1];
      }
      forall k | 0 <= k < |r|
        ensures r[k] in keys - {x}
      {
        assert r[k] == q[if k < i then k else k + 1];
      }
    } else {
      assert r == q;
    }
  }

  /** AddDependency keeps the invariant. */
  lemma AddDependencyPreservesInv(s: Sched, jobId: string, depId: string)
    requires Inv(s)
    ensures Inv(AddDependency(s, jobId, depId))
  {
    var r := AddDependency(s, jobId, depId);
    forall d, j | d in r.dependents && j in r.dependents[d]
      ensures j in r.jobs && d in r.jobs[j]
    {
      assert j in Lookup(r.dependents, d);
    }
  }

  /** RemoveDependency keeps the invariant. */
  lemma RemoveDependencyPreservesInv(s: Sched, jobId: string, depId: string)
    requires Inv(s)
    ensures Inv(RemoveDependency(s, jobId, depId))
  {
  }

  /** GetNextJob keeps the invariant. */
  lemma GetNextJobPreservesInv(s: Sched)
    requires Inv(s)
    ensures Inv(GetNextJob(s).0)
  {
    var (t, next) := GetNextJob(s);
    if next.Some? {
      var i :| 0 <= i < |s.queue| && PulledAt(s, i, next.value, t.queue);
      CutKeepsQueueSound(s.queue, i, t.queue, s.jobs, s.jobs.Keys);
    }
  }

  /** Under the invariant, every job listed under the job ProcessJob pulls is
      another registered job: the registry lookup of each dependent finds a
      job once the pulled one has left the registry. */
  lemma ProcessLookupSafe(s: Sched)
    requires Inv(s) && GetNextJob(s).1.Some?
    ensures forall j :: j in Lookup(s.dependents, GetNextJob(s).1.value) ==>
      j in s.jobs && j != GetNextJob(s).1.value
  {
    var p := GetNextJob(s).1.value;
    forall j | j in Lookup(s.dependents, p)
      ensures j in s.jobs && j != p
    {
      assert p in s.jobs[j];
    }
  }

  /** ProcessJob keeps the invariant. */
  lemma ProcessJobPreservesInv(s: Sched)
    requires Inv(s)
    ensures Inv(ProcessJob(s).0)
  {
    if GetNextJob(s).1.Some? {
      ProcessJobKeepsQueueSound(s);
      ProcessJobKeepsIndexSound(s);
    }
  }

  /** The queue after ProcessJob is GetNextJob's cut, over a registry that
      lost only the pulled id. */
  lemma ProcessJobKeepsQueueSound(s: Sched)
    requires Inv(s) && GetNextJob(s).1.Some?
    ensures QueueSound(ProcessJob(s).0)
  {
    var (t, next) := GetNextJob(s);
    var p := next.value;
    var i :| 0 <= i < |s.queue| && PulledAt(s, i, p, t.queue);
    CutKeepsQueueSound(s.queue, i, t.queue, s.jobs, s.jobs.Keys - {p});
  }

  /** Every entry left after ProcessJob lists registered jobs that still wait
      on it: the pulled id's entry is gone, and no waiting job was the pulled,
      ready one. */
  lemma ProcessJobKeepsIndexSound(s: Sched)
    requires Inv(s) && GetNextJob(s).1.Some?
    ensures IndexSound(ProcessJob(s).0)
  {
    var p := GetNextJob(s).1.value;
    var r := ProcessJob(s).0;
    forall d, j | d in r.dependents && j in r.dependents[d]
      ensures j in r.jobs && d in r.jobs[j]
    {
      assert j in s.jobs && d in s.jobs[j];
      assert j != p;
    }
  }

  // ---------------------------------------------------------------------------
  // The converse of the reverse-index invariant
  // ---------------------------------------------------------------------------

  lemma AddJobPreservesComplete(s: Sched, id: string, deps: seq<string>)
    requires IndexComplete(s)
    ensures IndexComplete(AddJob(s, id, deps))
  {
    var r := AddJob(s, id, deps);
    forall j, d | j in r.jobs && d in r.jobs[j]
      ensures d in r.dependents && j in r.dependents[d]
    {
      if j != id {
        assert j in Lookup(s.dependents, d);
        assert j in Lookup(r.dependents, d);
      }
    }
  }

  lemma AddDependencyPreservesComplete(s: Sched, jobId: string, depId: string)
    requires IndexComplete(s)
    ensures IndexComplete(AddDependency(s, jobId, depId))
  {
    var r := AddDependency(s, jobId, depId);
    forall j, d | j in r.jobs && d in r.jobs[j]
      ensures d in r.dependents && j in r.dependents[d]
    {
      if !(j == jobId && d == depId) {
        assert j in Lookup(s.dependents, d);
        assert j in Lookup(r.dependents, d);
      }
    }
  }

  lemma RemoveDependencyPreservesComplete(s: Sched, jobId: string, depId: string)
    requires IndexComplete(s)
    ensures IndexComplete(RemoveDependency(s, jobId, depId))
  {
  }

  lemma GetNextJobPreservesComplete(s: Sched)
    requires IndexComplete(s)
    ensures IndexComplete(GetNextJob(s).0)
  {
  }

  /** With both directions of the reverse index, processing a job clears its
      id from every job left in the registry. */
  lemma ProcessJobClearsDependency(s: Sched)
    requires Inv(s) && IndexComplete(s) && ProcessJob(s).1.Some?
    ensures forall k :: k in ProcessJob(s).0.jobs ==> ProcessJob(s).1.value !in ProcessJob(s).0.jobs[k]
  {
    var (r, next) := ProcessJob(s);
    var p := next.value;
    forall k | k in r.jobs
      ensures p !in r.jobs[k]
    {
      if k !in Lookup(s.dependents, p) {
        assert p !in s.jobs[k];
      }
    }
  }

  lemma ProcessJobPreservesComplete(s: Sched)
    requires Inv(s) && IndexComplete(s)
    ensures IndexComplete(ProcessJob(s).0)
  {
    var (r, next) := ProcessJob(s);
    if next.Some? {
      var p := next.value;
      ProcessJobClearsDependency(s);
      forall j, d | j in r.jobs && d in r.jobs[j]
        ensures d in r.dependents && j in r.dependents[d]
      {
        assert d != p;
        assert d in s.jobs[j];
      }
    }
  }

  /** RemoveJob does not keep the converse: after removing a job that another
      job depends on, the dependent still lists the removed id, but the
      reverse index no longer lists the dependent under it. */
  lemma RemoveJobBreaksComplete()
    ensures IndexComplete(AddJob(AddJob(Empty, "a", []), "b", ["a"]))
    ensures !IndexComplete(RemoveJob(AddJob(AddJob(Empty, "a", []), "b", ["a"]), "a"))
  {
    var s := AddJob(AddJob(Empty, "a", []), "b", ["a"]);
    AddJobPreservesComplete(Empty, "a", []);
    AddJobPreservesComplete(AddJob(Empty, "a", []), "b", ["a"]);
    var r := RemoveJob(s, "a");
    assert "a" in s.jobs;
    assert "b" in r.jobs && "a" in r.jobs["b"];
    assert "a" !in r.dependents;
  }

  // ---------------------------------------------------------------------------
  // Dependency edits and RemoveJob's effect on readiness
  // ---------------------------------------------------------------------------

  /** Adding the same dependency twice is the same as adding it once. */
  lemma AddDependencyIdempotent(s: Sched, jobId: string, depId: string)
    ensures AddDependency(AddDependency(s, jobId, depId), jobId, depId) == AddDependency(s, jobId, depId)
  {
  }

  /** Removing a dependency and adding it back gives the state that adding it
      alone gives. */
  lemma RemoveThenAddDependency(s: Sched, jobId: string, depId: string)
    ensures AddDependency(RemoveDependency(s, jobId, depId), jobId, depId) == AddDependency(s, jobId, depId)
  {
    if jobId in s.jobs {
      var r := AddDependency(RemoveDependency(s, jobId, depId), jobId, depId);
      var a := AddDependency(s, jobId, depId);
      assert (s.jobs[jobId] - {depId}) + {depId} == s.jobs[jobId] + {depId};
      assert r.jobs == a.jobs;
      if depId in s.dependents {
        assert r.dependents[depId] == a.dependents[depId];
      }
      assert r.dependents == a.dependents;
    }
  }

  /** When the reverse index is complete, removing an unresolved dependency and
      adding it back restores the state exactly. */
  lemma RemoveThenAddDependencyRestores(s: Sched, jobId: string, depId: string)
    requires IndexComplete(s) && jobId in s.jobs && depId in s.jobs[jobId]
    ensures AddDependency(RemoveDependency(s, jobId, depId), jobId, depId) == s
  {
    RemoveThenAddDependency(s, jobId, depId);
    assert s.dependents[depId] + {jobId} == s.dependents[depId];
    assert s.jobs[jobId] + {depId} == s.jobs[jobId];
  }

  /** RemoveJob does not cascade: every other job keeps its dependency set, so
      a job waiting on the removed one stays blocked. */
  lemma RemoveJobKeepsOthersBlocked(s: Sched, id: string, k: string)
    requires k != id && k in s.jobs
    ensures k in RemoveJob(s, id).jobs && RemoveJob(s, id).jobs[k] == s.jobs[k]
    ensures Ready(RemoveJob(s, id).jobs, k) <==> Ready(s.jobs, k)
  {
  }

  // ---------------------------------------------------------------------------
  // FIFO order among ready jobs
  // ---------------------------------------------------------------------------

  /** The first ready position is the same in any registry that agrees on
      which entries of the queue are ready. */
  lemma FirstReadySame(jobs: Index, jobs': Index, q: seq<string>, q': seq<string>)
    requires |q| <= |q'| && q'[..|q|] == q
    requires forall k :: 0 <= k < |q| ==> (Ready(jobs, q[k]) <==> Ready(jobs', q'[k]))
    requires FirstReady(jobs, q).Some?
    ensures FirstReady(jobs', q') == FirstReady(jobs, q)
  {
    var i := FirstReady(jobs, q).value;
    assert q'[i] == q[i];
    assert Ready(jobs', q'[i]);
  }

  /** Adding a job never overtakes a job that is already ready: GetNextJob
      returns the same job as before. */
  lemma AddJobKeepsNext(s: Sched, id: string, deps: seq<string>)
    requires Inv(s) && id !in s.jobs && GetNextJob(s).1.Some?
    ensures GetNextJob(AddJob(s, id, deps)).1 == GetNextJob(s).1
  {
    var r := AddJob(s, id, deps);
    assert r.queue[..|s.queue|] == s.queue;
    forall k | 0 <= k < |s.queue|
      ensures Ready(s.jobs, s.queue[k]) <==> Ready(r.jobs, r.queue[k])
    {
      assert s.queue[k] != id;
    }
    FirstReadySame(s.jobs, r.jobs, s.queue, r.queue);
  }

  /** A job added without dependencies to a scheduler with no ready job is the
      next job returned. */
  lemma AddReadyJobIsNext(s: Sched, id: string)
    requires Inv(s) && id !in s.jobs && GetNextJob(s).1.None?
    ensures GetNextJob(AddJob(s, id, [])).1 == Some(id)
  {
    var r := AddJob(s, id, []);
    assert r.jobs[id] == {};
    assert r.queue[|s.queue|] == id;
    forall k | 0 <= k < |s.queue|
      ensures !Ready(r.jobs, r.queue[k])
    {
      assert s.queue[k] != id;
      assert !Ready(s.jobs, s.queue[k]);
    }
  }

  // ---------------------------------------------------------------------------
  // Any run of operations
  // ---------------------------------------------------------------------------

  /** One call of the scheduler's API. */
  datatype Op =
    | AddJobOp(id: string, deps: seq<string>)
    | RemoveJobOp(id: string)
    | AddDependencyOp(jobId: string, depId: string)
    | RemoveDependencyOp(jobId: string, depId: string)
    | GetNextJobOp
    | ProcessJobOp

  function Step(s: Sched, op: Op): Sched
  {
    match op
    case AddJobOp(id, deps) => AddJob(s, id, deps)
    case RemoveJobOp(id) => RemoveJob(s, id)
    case AddDependencyOp(j, d) => AddDependency(s, j, d)
    case RemoveDependencyOp(j, d) => RemoveDependency(s, j, d)
    case GetNextJobOp => GetNextJob(s).0
    case ProcessJobOp => ProcessJob(s).0
  }

  /** The state after running `ops` in order from `s`. */
  function Run(s: Sched, ops: seq<Op>): Sched
    decreases |ops|
  {
    if ops == [] then s else Run(Step(s, ops[0]), ops[1..])
  }

  /** Every AddJob in the run uses an id not registered at that point. */
  ghost predicate FreshAdds(s: Sched, ops: seq<Op>)
    decreases |ops|
  {
    ops == [] || ((ops[0].AddJobOp? ==> ops[0].id !in s.jobs) && FreshAdds(Step(s, ops[0]), ops[1..]))
  }

  lemma StepPreservesInv(s: Sched, op: Op)
    requires Inv(s) && (op.AddJobOp? ==> op.id !in s.jobs)
    ensures Inv(Step(s, op))
  {
    match op
    case AddJobOp(id, deps) => AddJobPreservesInv(s, id, deps);
    case RemoveJobOp(id) => RemoveJobPreservesInv(s, id);
    case AddDependencyOp(j, d) => AddDependencyPreservesInv(s, j, d);
    case RemoveDependencyOp(j, d) => RemoveDependencyPreservesInv(s, j, d);
    case GetNextJobOp => GetNextJobPreservesInv(s);
    case ProcessJobOp => ProcessJobPreservesInv(s);
  }

  /** The invariant holds after every run whose AddJob calls use fresh ids. */
  lemma {:induction false} RunPreservesInv(s: Sched, ops: seq<Op>)
    requires Inv(s) && FreshAdds(s, ops)
    ensures Inv(Run(s, ops))
    decreases |ops|
  {
    if ops != [] {
      StepPreservesInv(s, ops[0]);
      RunPreservesInv(Step(s, ops[0]), ops[1..]);
    }
  }

}
