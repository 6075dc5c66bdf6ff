# A verified model of the Go job scheduler

`jobs-scheduler.go` is an in-memory job scheduler. A job has an id and a set of
dependency ids that it still waits on. The `JobScheduler` keeps three
structures:

- the registry `jobs`, which maps a job id to its job;
- the FIFO queue `jobQueue` of pending jobs;
- the reverse index `dependents`, which maps a dependency id to the ids of
  the jobs that list it.

`AddJob`, `RemoveJob`, `AddDependency` and `RemoveDependency` edit these
structures. `GetNextJob` takes the first queued job whose dependency set is
empty out of the queue. `ProcessJob` pulls that job, deletes it from the
registry, clears its id from every job listed under it in the reverse index,
and drops its reverse-index entry. `main.go` adds three chained jobs and
processes them.

The project has five modules:

- `Options` (`options.dfy`) defines `Option`, the result of a lookup that may
  find nothing.
- `ScheduleState` (`schedule_state.dfy`) is the scheduler as a value
  `Sched(jobs, queue, dependents)`, with one function per operation. The
  contract of each operation function (`AddJob`, `RemoveJob`, `AddDependency`,
  `RemoveDependency`, `GetNextJob`, `ProcessJob`) states its effect on each of
  the three structures; `Register`, `Unregister` and `Clear` are the closed
  forms of the loops. The same module defines the invariants:
  - `IndexSound`: every job listed under D is registered and still waits on D.
  - `QueueSound`: queued ids are registered and distinct.
  - `IndexComplete`: the converse of `IndexSound`.
- `ScheduleProperties` (`schedule_properties.dfy`) holds the lemmas:
  - `Inv` (= `IndexSound` and `QueueSound`) holds after every operation and
    every run of operations, given that each `AddJob` uses an id not yet
    registered (re-adding a queued id would queue it twice).
  - `IndexComplete` is kept by every operation except `RemoveJob`. A concrete
    run shows `RemoveJob` breaking it.
  - `ProcessJob`'s lookup of a dependent never reads a missing job.
  - Lemmas about dependency round trips, idempotence and the queue order.
- `JobsScheduler` (`jobs_scheduler.dfy`) is the `JobScheduler` class. Its
  three fields are updated in place by methods with the loops of the Go code.
  Each API method is proved to compute the matching `ScheduleState` function
  and to keep `Valid()` (= `Inv`); each loop sits in a helper method
  (`DependencySet`, `IndexUnder`, `Dequeue`, `Unindex`, `ClearFrom`) proved to
  compute the closed form of that loop.
- `Scenarios` (`scenarios.dfy`) holds the `main.go` demo, on the functions and
  on the class, and two small edge cases.

Two properties one might expect of such an index do not hold in the code, and
the model follows the code:

- The reverse index is not kept as the exact converse of the dependency sets.
  `RemoveJob` drops the removed job's own entry (`jobs-scheduler.go:100`), but
  the jobs waiting on it keep its id in their sets (`RemoveJobBreaksComplete`).
- An emptied entry can persist. `RemoveDependency` takes the job out of the
  dependency's entry and leaves the entry in place even when it becomes empty
  (`jobs-scheduler.go:129-131`, `RemoveDependencyLeavesEmptyEntry`). Only
  `RemoveJob` prunes an entry because it became empty (lines 93-96);
  `RemoveJob` and `ProcessJob` also drop the removed or processed job's own
  entry (lines 100 and 163), empty or not.

The invariant the model proves is therefore the one-directional `IndexSound`,
the direction `ProcessJob` relies on when it reads each listed dependent.

## Model

| member | source | states |
|---|---|---|
| ScheduleState.Register | jobs-scheduler.go:64-69 | the index gains exactly the given dependency keys; each of them maps to its old set (empty if absent) plus the id; every other entry is unchanged |
| ScheduleState.AddJob | jobs-scheduler.go:54-70 | the job is registered with exactly the ids of its list and queued at the back; other jobs are unchanged; each dependency's entry gains the id (created if absent); every other entry is unchanged |
| ScheduleState.RemoveFirst | jobs-scheduler.go:81-86 | a sequence without the element is unchanged; with it, one element shorter |
| ScheduleState.Unregister | jobs-scheduler.go:90-98 | an entry is kept unless it is one of the given keys and becomes empty without the id; the kept given entries lose the id and the others are unchanged |
| ScheduleState.RemoveJob | jobs-scheduler.go:75-101 | an unknown id changes nothing; otherwise the job leaves the registry, its first queue occurrence is removed, its own reverse-index entry is gone and no entry is created; each of its dependencies' entries loses the id and is deleted if left empty, and every other entry is unchanged |
| ScheduleState.AddDependency | jobs-scheduler.go:107-117 | an unknown job changes nothing; otherwise the dependency joins that job's set and the job joins the dependency's entry (created if absent); the queue, the other jobs and the other entries are unchanged |
| ScheduleState.RemoveDependency | jobs-scheduler.go:123-132 | an unknown job changes nothing; otherwise the dependency leaves that job's set and the job leaves an existing entry; no key is added or removed, and nothing else changes |
| ScheduleState.FirstReady | jobs-scheduler.go:137-146 | a found position holds a ready job and no earlier position does; nothing is found iff no queued job is ready |
| ScheduleState.GetNextJob | jobs-scheduler.go:137-146 | registry and index unchanged; None iff no queued job is ready, and then nothing changes; otherwise the returned id is the first ready job and only its position leaves the queue |
| ScheduleState.Clear | jobs-scheduler.go:159-162 | the registry keeps its keys; each listed job loses the id and the others are unchanged |
| ScheduleState.ProcessJob | jobs-scheduler.go:149-164 | returns what GetNextJob returns; with None nothing changes; otherwise the queue is GetNextJob's, the job leaves the registry, every job listed under it loses its id, and its entry is dropped |
| ScheduleProperties.RemoveFirstAt | jobs-scheduler.go:81-86 | removing the first occurrence at position i cuts exactly position i |
| ScheduleProperties.CutKeepsQueueSound | jobs-scheduler.go:141 | cutting one position from a registered, duplicate-free queue leaves it duplicate-free with every remaining id still registered |
| ScheduleProperties.ElementsSnoc | jobs-scheduler.go:55-58 | one more element of the list adds one id to its set |
| ScheduleProperties.RegisterStep | jobs-scheduler.go:64-69 | one more iteration of AddJob's indexing loop is one more entry update |
| ScheduleProperties.UnregisterStep | jobs-scheduler.go:90-98 | one more iteration of RemoveJob's cleanup loop removes the id from one entry and deletes the entry if it becomes empty |
| ScheduleProperties.ClearStep | jobs-scheduler.go:159-162 | one more iteration of ProcessJob's update loop is one more registry update |
| ScheduleProperties.EmptyIsSound | jobs-scheduler.go:42-48 | the new scheduler satisfies the invariant and its converse |
| ScheduleProperties.AddJobPreservesInv | jobs-scheduler.go:54-70 | AddJob of a fresh id keeps the invariant |
| ScheduleProperties.RemoveJobPreservesInv | jobs-scheduler.go:75-101 | RemoveJob keeps the invariant |
| ScheduleProperties.RemoveJobKeepsIndexSound | jobs-scheduler.go:88-100 | RemoveJob keeps every index entry sound |
| ScheduleProperties.RemoveJobKeepsQueueSound | jobs-scheduler.go:81-88 | RemoveJob keeps the queue registered and duplicate-free |
| ScheduleProperties.RemoveFirstKeepsSound | jobs-scheduler.go:81-86 | removing the first occurrence of x from a distinct queue leaves a distinct queue without x |
| ScheduleProperties.AddDependencyPreservesInv | jobs-scheduler.go:107-117 | AddDependency keeps the invariant |
| ScheduleProperties.RemoveDependencyPreservesInv | jobs-scheduler.go:123-132 | RemoveDependency keeps the invariant |
| ScheduleProperties.GetNextJobPreservesInv | jobs-scheduler.go:137-146 | GetNextJob keeps the invariant |
| ScheduleProperties.ProcessLookupSafe | jobs-scheduler.go:156-161 | under the invariant, every job listed under the processed id is still registered after that id is deleted, so the lookup never reads a missing job |
| ScheduleProperties.ProcessJobPreservesInv | jobs-scheduler.go:149-164 | ProcessJob keeps the invariant |
| ScheduleProperties.ProcessJobKeepsQueueSound | jobs-scheduler.go:141-156 | after processing, the queue is still duplicate-free and every queued id is still registered |
| ScheduleProperties.ProcessJobKeepsIndexSound | jobs-scheduler.go:156-163 | after processing, every remaining entry lists only registered jobs that still wait on it |
| ScheduleProperties.AddJobPreservesComplete | jobs-scheduler.go:54-70 | AddJob keeps the converse of the invariant |
| ScheduleProperties.AddDependencyPreservesComplete | jobs-scheduler.go:107-117 | AddDependency keeps the converse |
| ScheduleProperties.RemoveDependencyPreservesComplete | jobs-scheduler.go:123-132 | RemoveDependency keeps the converse |
| ScheduleProperties.GetNextJobPreservesComplete | jobs-scheduler.go:137-146 | GetNextJob keeps the converse |
| ScheduleProperties.ProcessJobClearsDependency | jobs-scheduler.go:156-163 | with both directions of the index, no remaining job still waits on the processed id |
| ScheduleProperties.ProcessJobPreservesComplete | jobs-scheduler.go:149-164 | ProcessJob keeps the converse |
| ScheduleProperties.RemoveJobBreaksComplete | jobs-scheduler.go:75-101 | adding "a", then "b" waiting on "a", satisfies the converse; removing "a" breaks it |
| ScheduleProperties.AddDependencyIdempotent | jobs-scheduler.go:107-117 | adding the same dependency twice is the same as adding it once |
| ScheduleProperties.RemoveThenAddDependency | jobs-scheduler.go:107-132 | removing and then re-adding a dependency is the same as adding it |
| ScheduleProperties.RemoveThenAddDependencyRestores | jobs-scheduler.go:107-132 | with both directions of the index, removing and re-adding an existing dependency restores the state exactly |
| ScheduleProperties.RemoveJobKeepsOthersBlocked | jobs-scheduler.go:88-100 | removing a job leaves every other job's dependency set unchanged, so a job waiting on it stays blocked |
| ScheduleProperties.FirstReadySame | jobs-scheduler.go:138-144 | extending the queue behind a found ready job, keeping readiness before it, finds the same position |
| ScheduleProperties.AddJobKeepsNext | jobs-scheduler.go:62 | adding a job does not change which job GetNextJob returns when one is ready |
| ScheduleProperties.AddReadyJobIsNext | jobs-scheduler.go:62 | when no job is ready, a newly added job without dependencies is the next job |
| ScheduleProperties.StepPreservesInv | jobs-scheduler.go:54-164 | every API call (AddJob with a fresh id) keeps the invariant |
| ScheduleProperties.RunPreservesInv | jobs-scheduler.go:54-164 | any sequence of API calls whose AddJob ids are fresh keeps the invariant |
| JobsScheduler.JobScheduler.constructor | jobs-scheduler.go:42-48 | the new scheduler is empty, valid and satisfies the converse |
| JobsScheduler.JobScheduler.AddJob | jobs-scheduler.go:54-70 | the fields become ScheduleState.AddJob of the old state, and validity is kept |
| JobsScheduler.JobScheduler.DependencySet | jobs-scheduler.go:55-58 | the loop builds exactly the set of the list's ids |
| JobsScheduler.JobScheduler.IndexUnder | jobs-scheduler.go:64-69 | the reverse index becomes Register of the old index; the registry and queue are unchanged |
| JobsScheduler.JobScheduler.RemoveJob | jobs-scheduler.go:75-101 | the fields become ScheduleState.RemoveJob of the old state, and validity is kept |
| JobsScheduler.JobScheduler.Dequeue | jobs-scheduler.go:81-86 | the queue loses its first occurrence of the id; nothing else changes |
| JobsScheduler.JobScheduler.Unindex | jobs-scheduler.go:90-98 | the reverse index becomes Unregister of the old index; the registry and queue are unchanged |
| JobsScheduler.JobScheduler.AddDependency | jobs-scheduler.go:107-117 | the fields become ScheduleState.AddDependency of the old state, and validity is kept |
| JobsScheduler.JobScheduler.RemoveDependency | jobs-scheduler.go:123-132 | the fields become ScheduleState.RemoveDependency of the old state, and validity is kept |
| JobsScheduler.JobScheduler.GetNextJob | jobs-scheduler.go:137-146 | the new fields and the result are ScheduleState.GetNextJob of the old state, and validity is kept |
| JobsScheduler.JobScheduler.ProcessJob | jobs-scheduler.go:149-164 | the new fields and the processed id are ScheduleState.ProcessJob of the old state, and validity is kept |
| JobsScheduler.JobScheduler.ClearFrom | jobs-scheduler.go:159-162 | the registry becomes Clear of the old registry; the queue and index are unchanged |
| Scenarios.DemoStartIndex | main.go:6-8 | the demo's three AddJob calls build the index job1 to {job2, job3}, job2 to {job3} |
| Scenarios.DemoStartState | main.go:6-8 | the state after the demo's three AddJob calls, written out |
| Scenarios.DemoFirstStep | main.go:13 | the first ProcessJob runs job1 and leaves job2 ready |
| Scenarios.DemoSecondStep | main.go:16 | the second ProcessJob runs job2 and leaves job3 ready |
| Scenarios.DemoThirdStep | main.go:19 | the third ProcessJob runs job3 and empties the scheduler |
| Scenarios.DemoProcessesInOrder | main.go:13-20 | the demo processes job1, job2 and job3 in order, and a further call finds no job |
| Scenarios.MissingDependencyBlocksUntilRemoved | jobs-scheduler.go:123-146 | a job waiting on an id never added is not returned, and is returned once that dependency is removed |
| Scenarios.RemoveDependencyLeavesEmptyEntry | jobs-scheduler.go:128-131 | removing the last waiting job from an entry leaves the empty entry in place |
| Scenarios.Demo | main.go:3-21 | the demo, run on the class, reports job1, job2, job3 and then no job |

## Left out

- JobsScheduler.JobScheduler.AddJob: requires an id that is not yet registered. The Go doc comment calls the id unique. Re-adding an id would overwrite the registry entry and, when the old job is still queued, leave the old `*Job` in the queue; an id-keyed model cannot represent that stale pointer. In Go the stale pointer can lead to a nil dereference (not executed): after `AddJob("a", [])`, `AddJob("a", ["b"])` and `ProcessJob()`, the first call pulls the old ready job and deletes the new registry entry for "a" (line 156); then `AddJob("b", [])` and `ProcessJob()` process "b" and read `js.jobs["a"]`, which is nil, at lines 160-161. The requires also excludes re-adding an id that `GetNextJob` has already pulled but that is still registered, although that case leaves no stale queue entry.
- Jobs are identified by id. `*Job` pointers and `container/list` elements are not modelled. The queue is a sequence of ids, and `GetNextJob` returns the id instead of the `*Job`.
- The `Set` helpers (`Add`, `Remove`, `Contains`, `Len`) are Dafny's built-in set operations, not separate members.
- `DisplayJobQueue`, `DisplayJobs` and the messages `ProcessJob` prints are output only. ProcessJob returns the processed id (or None) in place of its message.
- The source iterates over Go maps, whose order is random. The model picks an arbitrary element each iteration and proves the result does not depend on the order.
- Cycle detection is not modelled, because the source has none. A job in a dependency cycle, or waiting on an id never added, simply stays queued.
- Concurrency is not modelled: the source is single-threaded.
