/**
 The JobScheduler of jobs-scheduler.go as a class. Its three fields are the
 registry (job id to the set of its unresolved dependency ids), the FIFO queue
 of pending job ids and the reverse index (dependency id to the ids of the jobs
 waiting on it). Every method updates them in place with the loops of the Go
 code and is proved to compute the matching function of ScheduleState, whose
 properties are proved in ScheduleProperties.
 */
module JobsScheduler {
  import opened Options
  import S = ScheduleState
  import P = ScheduleProperties

  class JobScheduler {
    var jobs: map<string, set<string>>
    var queue: seq<string>
    var dependents: map<string, set<string>>

    /** The three structures as one value. */
    function State(): S.Sched
      reads this
    {
      S.Sched(jobs, queue, dependents)
    }

    /** The object invariant: the reverse index lists only registered jobs
        that still wait on the entry's id, and the queue holds distinct
        registered ids. */
    ghost predicate Valid()
      reads this
    {
      S.Inv(State())
    }

    /** NewJobScheduler: an empty registry, queue and reverse index. */
    constructor ()
      ensures Valid() && S.IndexComplete(State())
      ensures State() == S.Empty
    {
      jobs := map[];
      queue := [];
      dependents := map[];
      new;
      P.EmptyIsSound();
    }

    /** AddJob(id, dependencies), for an id not yet registered. */
    method AddJob(id: string, deps: seq<string>)
      requires Valid() && id !in jobs
      modifies this
      ensures Valid()
      ensures State() == S.AddJob(old(State()), id, deps)
    {
      var depSet := DependencySet(deps);
      jobs := jobs[id := depSet];
      queue := queue + [id];
      IndexUnder(id, deps);
      P.AddJobPreservesInv(old(State()), id, deps);
    }

    /** The dependency set AddJob builds from its list (lines 55-58). */
    static method DependencySet(deps: seq<string>) returns (depSet: set<string>)
      ensures depSet == S.Elements(deps)
    {
      depSet := {};
      for i := 0 to |deps|
        invariant depSet == S.Elements(deps[..i])
      {
        assert deps[..i + 1] == deps[..i] + [deps[i]];
        P.ElementsSnoc(deps[..i], deps[i]);
        depSet := depSet + {deps[i]};
      }
      assert deps[..|deps|] == deps;
    }

    /** The reverse-index loop of AddJob: `id` joins the entry of every
        dependency, an absent entry being created first. */
    method IndexUnder(id: string, deps: seq<string>)
      modifies this
      ensures jobs == old(jobs) && queue == old(queue)
      ensures dependents == S.Register(old(dependents), S.Elements(deps), id)
    {
      for i := 0 to |deps|
        invariant jobs == old(jobs) && queue == old(queue)
        invariant dependents == S.Register(old(dependents), S.Elements(deps[..i]), id)
      {
        assert deps[..i + 1] == deps[..i] + [deps[i]];
        P.ElementsSnoc(deps[..i], deps[i]);
        P.RegisterStep(old(dependents), S.Elements(deps[..i]), deps[i], id);
        var dep := deps[i];
        if dep !in dependents {
          dependents := dependents[dep := {}];
        }
        dependents := dependents[dep := dependents[dep] + {id}];
      }
      assert deps[..|deps|] == deps;
    }

    /** RemoveJob(id): a no-op for an unknown id. */
    method RemoveJob(id: string)
      requires Valid()
      modifies this
      ensures Valid()
      ensures State() == S.RemoveJob(old(State()), id)
    {
      if id !in jobs {
        return;
      }
      var job := jobs[id];
      Dequeue(id);
      jobs := jobs - {id};
      Unindex(id, job);
      dependents := dependents - {id};
      P.RemoveJobPreservesInv(old(State()), id);
    }

    /** The queue scan of RemoveJob: the first entry equal to `id` leaves the
        queue. */
    method Dequeue(id: string)
      modifies this
      ensures jobs == old(jobs) && dependents == old(dependents)
      ensures queue == S.RemoveFirst(old(queue), id)
    {
      var i := 0;
      while i < |queue|
        invariant 0 <= i <= |queue| && State() == old(State())
        invariant forall k :: 0 <= k < i ==> queue[k] != id
      {
        if queue[i] == id {
          P.RemoveFirstAt(queue, id, i);
          queue := queue[..i] + queue[i + 1..];
          return;
        }
        i := i + 1;
      }
    }

    /** The dependency-cleanup loop of RemoveJob: `id` leaves the entry of
        each of its dependencies, and an entry left empty is deleted. */
    method Unindex(id: string, deps: set<string>)
      modifies this
      ensures jobs == old(jobs) && queue == old(queue)
      ensures dependents == S.Unregister(old(dependents), deps, id)
    {
      var todo := deps;
      while todo != {}
        invariant todo <= deps
        invariant jobs == old(jobs) && queue == old(queue)
        invariant dependents == S.Unregister(old(dependents), deps - todo, id)
        decreases todo
      {
        var dep :| dep in todo;
        P.UnregisterStep(old(dependents), deps - todo, dep, id);
        assert deps - (todo - {dep}) == (deps - todo) + {dep};
        if dep in dependents {
          var remaining := dependents[dep] - {id};
          if |remaining| == 0 {
            dependents := dependents - {dep};
          } else {
            dependents := dependents[dep := remaining];
          }
        }
        todo := todo - {dep};
      }
      assert deps - {} == deps;
    }

    /** AddDependency(jobId, dependencyId): a no-op for an unknown job. */
    method AddDependency(jobId: string, depId: string)
      requires Valid()
      modifies this
      ensures Valid()
      ensures State() == S.AddDependency(old(State()), jobId, depId)
    {
      if jobId !in jobs {
        return;
      }
      jobs := jobs[jobId := jobs[jobId] + {depId}];
      if depId !in dependents {
        dependents := dependents[depId := {}];
      }
      dependents := dependents[depId := dependents[depId] + {jobId}];
      P.AddDependencyPreservesInv(old(State()), jobId, depId);
    }

    /** RemoveDependency(jobId, dependencyId): a no-op for an unknown job. */
    method RemoveDependency(jobId: string, depId: string)
      requires Valid()
      modifies this
      ensures Valid()
      ensures State() == S.RemoveDependency(old(State()), jobId, depId)
    {
      if jobId !in jobs {
        return;
      }
      jobs := jobs[jobId := jobs[jobId] - {depId}];
      if depId in dependents {
        dependents := dependents[depId := dependents[depId] - {jobId}];
      }
      P.RemoveDependencyPreservesInv(old(State()), jobId, depId);
    }

    /** GetNextJob: takes the first queued job with no unresolved dependency
        out of the queue and returns its id. */
    method GetNextJob() returns (next: Option<string>)
      requires Valid()
      modifies this
      ensures Valid()
      ensures (State(), next) == S.GetNextJob(old(State()))
    {
      var i := 0;
      while i < |queue|
        invariant 0 <= i <= |queue| && State() == old(State())
        invariant forall k :: 0 <= k < i ==> !S.Ready(jobs, queue[k])
      {
        var id := queue[i];
        if |jobs[id]| == 0 {
          queue := queue[..i] + queue[i + 1..];
          P.GetNextJobPreservesInv(old(State()));
          return Some(id);
        }
        i := i + 1;
      }
      return None;
    }

    /** ProcessJob: pulls the next ready job, clears its id from the jobs
        listed under it and forgets it. Returns the processed id, or None
        when there was no job to process. */
    method ProcessJob() returns (processed: Option<string>)
      requires Valid()
      modifies this
      ensures Valid()
      ensures (State(), processed) == S.ProcessJob(old(State()))
    {
      ghost var s := State();
      var next := GetNextJob();
      if next.None? {
        return None;
      }
      var id := next.value;
      P.ProcessLookupSafe(s);
      jobs := jobs - {id};
      if id in dependents {
        ClearFrom(dependents[id], id);
      } else {
        assert jobs == S.Clear(jobs, {}, id);
      }
      dependents := dependents - {id};
      assert (State(), Some(id)) == S.ProcessJob(s);
      P.ProcessJobPreservesInv(s);
      return Some(id);
    }

    /** The dependent-update loop of ProcessJob: `id` leaves the dependency
        set of every job of `waiting`, each of which must be registered. */
    method ClearFrom(waiting: set<string>, id: string)
      requires waiting <= jobs.Keys
      modifies this
      ensures queue == old(queue) && dependents == old(dependents)
      ensures jobs == S.Clear(old(jobs), waiting, id)
    {
      var todo := waiting;
      while todo != {}
        invariant todo <= waiting
        invariant queue == old(queue) && dependents == old(dependents)
        invariant jobs == S.Clear(old(jobs), waiting - todo, id)
        decreases todo
      {
        var dependentId :| dependentId in todo;
        P.ClearStep(old(jobs), waiting - todo, dependentId, id);
        assert waiting - (todo - {dependentId}) == (waiting - todo) + {dependentId};
        jobs := jobs[dependentId := jobs[dependentId] - {id}];
        todo := todo - {dependentId};
      }
      assert waiting - {} == waiting;
    }
  }

}
