/**
 The job scheduler of jobs-scheduler.go as a value: the registry of jobs with
 their unresolved dependency sets, the FIFO queue of pending job ids and the
 reverse index from a dependency id to the jobs waiting on it. Each operation
 of the scheduler is a function from the old value to the new one; the class
 in jobs_scheduler.dfy is proved to compute exactly these functions.
 */
module ScheduleState {
  import opened Options

  /** A map from an id to a set of ids: the registry and the reverse index. */
  type Index = map<string, set<string>>

  datatype Sched = Sched(jobs: Index, queue: seq<string>, dependents: Index)

  /** The state NewJobScheduler builds: three empty structures. */
  const Empty: Sched := Sched(map[], [], map[])

  /** Reading a Go map of sets: a missing key reads as the nil (empty) set. */
  function Lookup(m: Index, k: string): set<string>
  {
    if k in m then m[k] else {}
  }

  /** The ids of a dependency list, duplicates collapsed. */
  function Elements(xs: seq<string>): set<string>
  {
    set x | x in xs
  }

  /** A registered job whose dependency set is empty may run. */
  predicate Ready(jobs: Index, id: string)
  {
    id in jobs && jobs[id] == {}
  }

  // ---------------------------------------------------------------------------
  // Invariants
  // ---------------------------------------------------------------------------

  /** Every job listed in the reverse index under D is registered and still
      lists D as unresolved. This is what keeps ProcessJob's lookup of a
      dependent in the registry from reading a missing job. */
  ghost predicate IndexSound(s: Sched)
  {
    forall d, j :: d in s.dependents && j in s.dependents[d] ==> j in s.jobs && d in s.jobs[j]
  }

  /** Every queued id is registered, and no id is queued twice. */
  ghost predicate QueueSound(s: Sched)
  {
    && (forall i :: 0 <= i < |s.queue| ==> s.queue[i] in s.jobs)
    && (forall i, k :: 0 <= i < k < |s.queue| ==> s.queue[i] != s.queue[k])
  }

  /** The invariant every operation preserves (given fresh ids on AddJob). */
  ghost predicate Inv(s: Sched)
  {
    IndexSound(s) && QueueSound(s)
  }

  /** The converse of IndexSound: every unresolved dependency D of a
      registered job J has J listed under D. RemoveJob does not keep it. */
  ghost predicate IndexComplete(s: Sched)
  {
    forall j, d :: j in s.jobs && d in s.jobs[j] ==> d in s.dependents && j in s.dependents[d]
  }

  // ---------------------------------------------------------------------------
  // AddJob
  // ---------------------------------------------------------------------------

  /** The reverse index after registering `id` under every id of `ds`,
      creating the entries that were absent. Its contract only spells out the
      comprehension: it is the closed form the AddJob loop is proved to
      compute, and AddJob's contract states what it means. */
  function Register(idx: Index, ds: set<string>, id: string): (r: Index)
    ensures r.Keys == idx.Keys + ds
    ensures forall k :: k in ds ==> r[k] == Lookup(idx, k) + {id}
    ensures forall k :: k in idx && k !in ds ==> r[k] == idx[k]
  {
    map k | k in idx.Keys + ds :: if k in ds then Lookup(idx, k) + {id} else idx[k]
  }

  /** AddJob(id, deps): the job is registered with exactly the ids of `deps`,
      queued at the back, and listed under each of its dependencies. */
  function AddJob(s: Sched, id: string, deps: seq<string>): (r: Sched)
    ensures r.queue == s.queue + [id]
    ensures r.jobs.Keys == s.jobs.Keys + {id}
    ensures forall d :: d in r.jobs[id] <==> d in deps
    ensures forall k :: k in s.jobs && k != id ==> r.jobs[k] == s.jobs[k]
    ensures forall d :: d in deps ==> d in r.dependents && r.dependents[d] == Lookup(s.dependents, d) + {id}
    ensures forall k :: k !in deps ==> (k in r.dependents <==> k in s.dependents) && Lookup(r.dependents, k) == Lookup(s.dependents, k)
  {
    var ds := Elements(deps);
    Sched(s.jobs[id := ds], s.queue + [id], Register(s.dependents, ds, id))
  }

  // ---------------------------------------------------------------------------
  // RemoveJob
  // ---------------------------------------------------------------------------

  /** The sequence without the first occurrence of `x`. */
  function RemoveFirst(q: seq<string>, x: string): (r: seq<string>)
    ensures x !in q ==> r == q
    ensures x in q ==> |r| == |q| - 1
  {
    if q == [] then []
    else
      assert q == [q[0]] + q[1..];
      if q[0] == x then q[1..] else [q[0]] + RemoveFirst(q[1..], x)
  }

  /** The reverse index after taking `id` out of the entry of every id in
      `ds`, deleting the entries that become empty. Like Register, the closed
      form of a loop (RemoveJob's cleanup); RemoveJob's contract states the
      effect entry by entry. */
  function Unregister(idx: Index, ds: set<string>, id: string): (r: Index)
    ensures forall k :: k in r <==> k in idx && (k !in ds || idx[k] - {id} != {})
    ensures forall k :: k in r ==> r[k] == if k in ds then idx[k] - {id} else idx[k]
  {
    map k | k in idx && (k !in ds || idx[k] - {id} != {}) :: if k in ds then idx[k] - {id} else idx[k]
  }

  /** RemoveJob(id): an unknown id changes nothing; otherwise the job leaves
      the registry and the queue, leaves the entry of each of its remaining
      dependencies (an entry that becomes empty is deleted), and its own
      entry in the reverse index is dropped. Jobs depending on it keep it. */
  function RemoveJob(s: Sched, id: string): (r: Sched)
    ensures id !in s.jobs ==> r == s
    ensures id in s.jobs ==> r.jobs == s.jobs - {id}
    ensures id in s.jobs ==> r.queue == RemoveFirst(s.queue, id)
    ensures id in s.jobs ==> id !in r.dependents
    ensures id in s.jobs ==> r.dependents.Keys <= s.dependents.Keys
    ensures id in s.jobs ==> forall d :: d != id && d in s.jobs[id] ==>
      && (d in r.dependents <==> Lookup(s.dependents, d) - {id} != {})
      && Lookup(r.dependents, d) == Lookup(s.dependents, d) - {id}
    ensures id in s.jobs ==> forall d :: d != id && d !in s.jobs[id] ==>
      && (d in r.dependents <==> d in s.dependents)
      && Lookup(r.dependents, d) == Lookup(s.dependents, d)
  {
    if id !in s.jobs then s
    else Sched(s.jobs - {id}, RemoveFirst(s.queue, id), Unregister(s.dependents, s.jobs[id], id) - {id})
  }

  // ---------------------------------------------------------------------------
  // AddDependency and RemoveDependency
  // ---------------------------------------------------------------------------

  /** AddDependency(jobId, depId): an unknown job changes nothing; otherwise
      depId joins the job's set and jobId joins depId's entry, and nothing
      else changes. */
  function AddDependency(s: Sched, jobId: string, depId: string): (r: Sched)
    ensures jobId !in s.jobs ==> r == s
    ensures r.queue == s.queue && r.jobs.Keys == s.jobs.Keys
    ensures jobId in s.jobs ==> r.jobs[jobId] == s.jobs[jobId] + {depId}
    ensures forall k :: k in s.jobs && k != jobId ==> r.jobs[k] == s.jobs[k]
    ensures jobId in s.jobs ==> depId in r.dependents && r.dependents[depId] == Lookup(s.dependents, depId) + {jobId}
    ensures forall k :: k != depId ==> (k in r.dependents <==> k in s.dependents) && Lookup(r.dependents, k) == Lookup(s.dependents, k)
  {
    if jobId !in s.jobs then s
    else Sched(s.jobs[jobId := s.jobs[jobId] + {depId}], s.queue,
               s.dependents[depId := Lookup(s.dependents, depId) + {jobId}])
  }

  /** RemoveDependency(jobId, depId): an unknown job changes nothing;
      otherwise depId leaves the job's set and jobId leaves depId's entry if
      there is one. The entry is kept even when it becomes empty. */
  function RemoveDependency(s: Sched, jobId: string, depId: string): (r: Sched)
    ensures jobId !in s.jobs ==> r == s
    ensures r.queue == s.queue && r.jobs.Keys == s.jobs.Keys && r.dependents.Keys == s.dependents.Keys
    ensures jobId in s.jobs ==> r.jobs[jobId] == s.jobs[jobId] - {depId}
    ensures forall k :: k in s.jobs && k != jobId ==> r.jobs[k] == s.jobs[k]
    ensures jobId in s.jobs && depId in s.dependents ==> r.dependents[depId] == s.dependents[depId] - {jobId}
    ensures forall k :: k in s.dependents && k != depId ==> r.dependents[k] == s.dependents[k]
  {
    if jobId !in s.jobs then s
    else Sched(s.jobs[jobId := s.jobs[jobId] - {depId}], s.queue,
               if depId in s.dependents then s.dependents[depId := s.dependents[depId] - {jobId}]
               else s.dependents)
  }

  // ---------------------------------------------------------------------------
  // GetNextJob and ProcessJob
  // ---------------------------------------------------------------------------

  /** The position of the first ready job in `q`, if any. */
  function FirstReady(jobs: Index, q: seq<string>): (r: Option<nat>)
    ensures r.Some? ==> r.value < |q| && Ready(jobs, q[r.value])
    ensures r.Some? ==> forall k :: 0 <= k < r.value ==> !Ready(jobs, q[k])
    ensures r.None? <==> forall k :: 0 <= k < |q| ==> !Ready(jobs, q[k])
  {
    if q == [] then None
    else if Ready(jobs, q[0]) then Some(0)
    else match FirstReady(jobs, q[1..])
      case None => None
      case Some(i) => Some(i + 1)
  }

  /** Position i holds the first ready job of the queue, `id`, and `rest` is
      the queue without that position. */
  ghost predicate PulledAt(s: Sched, i: nat, id: string, rest: seq<string>)
    requires i < |s.queue|
  {
    && s.queue[i] == id
    && Ready(s.jobs, id)
    && (forall k :: 0 <= k < i ==> !Ready(s.jobs, s.queue[k]))
    && rest == s.queue[..i] + s.queue[i + 1..]
  }

  /** GetNextJob: the first queued job whose dependency set is empty leaves the
      queue (not the registry) and is returned; with no such job, None and no
      change. */
  function GetNextJob(s: Sched): (r: (Sched, Option<string>))
    ensures r.0.jobs == s.jobs && r.0.dependents == s.dependents
    ensures r.1.None? <==> forall k :: 0 <= k < |s.queue| ==> !Ready(s.jobs, s.queue[k])
    ensures r.1.None? ==> r.0 == s
    ensures r.1.Some? ==> exists i :: 0 <= i < |s.queue| && PulledAt(s, i, r.1.value, r.0.queue)
  {
    match FirstReady(s.jobs, s.queue)
    case None => (s, None)
    case Some(i) =>
      var r := (s.(queue := s.queue[..i] + s.queue[i + 1..]), Some(s.queue[i]));
      assert PulledAt(s, i, r.1.value, r.0.queue);
      r
  }

  /** The registry after the dependency `p` is cleared from every job in `ds`:
      the closed form of ProcessJob's update loop, whose meaning ProcessJob's
      contract states. */
  function Clear(jobs: Index, ds: set<string>, p: string): (r: Index)
    ensures r.Keys == jobs.Keys
    ensures forall k :: k in jobs ==> r[k] == if k in ds then jobs[k] - {p} else jobs[k]
  {
    map k | k in jobs :: if k in ds then jobs[k] - {p} else jobs[k]
  }

  /** ProcessJob: pulls the next job as GetNextJob does; with none, nothing
      changes. Otherwise the job leaves the registry, its id leaves the set of
      every job listed under it, and its reverse-index entry is dropped.
      The function is meant for states satisfying Inv: there every job listed
      under the pulled id is registered (ScheduleProperties.ProcessLookupSafe).
      On other states it skips a listed id that is not registered, where the
      Go code would dereference a nil job. */
  function ProcessJob(s: Sched): (r: (Sched, Option<string>))
    ensures r.1 == GetNextJob(s).1
    ensures r.1.None? ==> r.0 == s
    ensures r.1.Some? ==> r.0.queue == GetNextJob(s).0.queue
    ensures r.1.Some? ==> r.0.jobs.Keys == s.jobs.Keys - {r.1.value}
    ensures r.1.Some? ==> forall k :: k in r.0.jobs ==>
      r.0.jobs[k] == if k in Lookup(s.dependents, r.1.value) then s.jobs[k] - {r.1.value} else s.jobs[k]
    ensures r.1.Some? ==> r.0.dependents == s.dependents - {r.1.value}
  {
    var (t, next) := GetNextJob(s);
    match next
    case None => (s, None)
    case Some(p) => (Sched(Clear(t.jobs - {p}, Lookup(t.dependents, p), p), t.queue, t.dependents - {p}), Some(p))
  }

}
