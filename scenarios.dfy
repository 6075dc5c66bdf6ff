/**
 Concrete runs of the scheduler: the demo of main.go (three jobs in a chain,
 processed in dependency order until nothing is left), a job waiting on an id
 that is never added, and the reverse-index entry that RemoveDependency leaves
 empty.
 */
module Scenarios {
  import opened Options
  import opened ScheduleState
  import ScheduleProperties
  import JobsScheduler

  /** job1 without dependencies, job2 after job1, job3 after job1 and job2. */
  function DemoStart(): Sched
  {
    AddJob(AddJob(AddJob(Empty, "job1", []), "job2", ["job1"]), "job3", ["job1", "job2"])
  }

  /** The reverse index the demo's three AddJob calls build. */
  lemma DemoStartIndex()
    ensures Register(Register(Register(map[], {}, "job1"), {"job1"}, "job2"), {"job1", "job2"}, "job3")
      == map["job1" := {"job2", "job3"}, "job2" := {"job3"}]
  {
    var i1 := Register(map[], {}, "job1");
    assert i1 == map[];
    var i2 := Register(i1, {"job1"}, "job2");
    assert i2.Keys == {"job1"} && i2["job1"] == {"job2"};
    assert i2 == map["job1" := {"job2"}];
    var i3 := Register(i2, {"job1", "job2"}, "job3");
    assert i3.Keys == {"job1", "job2"} && i3["job1"] == {"job2", "job3"} && i3["job2"] == {"job3"};
  }

  /** The scheduler after the demo's three AddJob calls. */
  lemma DemoStartState()
    ensures DemoStart() == Sched(
      map["job1" := {}, "job2" := {"job1"}, "job3" := {"job1", "job2"}],
      ["job1", "job2", "job3"],
      map["job1" := {"job2", "job3"}, "job2" := {"job3"}])
  {
    assert Elements([]) == {};
    assert Elements(["job1"]) == {"job1"};
    assert Elements(["job1", "job2"]) == {"job1", "job2"};
    DemoStartIndex();
  }

  /** First ProcessJob of the demo: job1 runs and job2 becomes ready. */
  lemma DemoFirstStep()
    ensures ProcessJob(Sched(
      map["job1" := {}, "job2" := {"job1"}, "job3" := {"job1", "job2"}],
      ["job1", "job2", "job3"],
      map["job1" := {"job2", "job3"}, "job2" := {"job3"}])) == (Sched(
      map["job2" := {}, "job3" := {"job2"}],
      ["job2", "job3"],
      map["job2" := {"job3"}]), Some("job1"))
  {
    var s := Sched(
      map["job1" := {}, "job2" := {"job1"}, "job3" := {"job1", "job2"}],
      ["job1", "job2", "job3"],
      map["job1" := {"job2", "job3"}, "job2" := {"job3"}]);
    assert Ready(s.jobs, s.queue[0]);
    assert FirstReady(s.jobs, s.queue) == Some(0);
    assert s.queue[..0] + s.queue[1..] == ["job2", "job3"];
    assert GetNextJob(s) == (s.(queue := ["job2", "job3"]), Some("job1"));
    var rest := s.jobs - {"job1"};
    assert rest.Keys == {"job2", "job3"};
    assert rest["job2"] == {"job1"} && rest["job3"] == {"job1", "job2"};
    var cleared := Clear(rest, {"job2", "job3"}, "job1");
    assert cleared.Keys == {"job2", "job3"};
    assert cleared["job2"] == {} && cleared["job3"] == {"job2"};
    assert cleared == map["job2" := {}, "job3" := {"job2"}];
    assert s.dependents - {"job1"} == map["job2" := {"job3"}];
  }

  /** Second ProcessJob of the demo: job2 runs and job3 becomes ready. */
  lemma DemoSecondStep()
    ensures ProcessJob(Sched(map["job2" := {}, "job3" := {"job2"}], ["job2", "job3"], map["job2" := {"job3"}]))
      == (Sched(map["job3" := {}], ["job3"], map[]), Some("job2"))
  {
    var s := Sched(map["job2" := {}, "job3" := {"job2"}], ["job2", "job3"], map["job2" := {"job3"}]);
    assert Ready(s.jobs, s.queue[0]);
    assert FirstReady(s.jobs, s.queue) == Some(0);
    assert s.queue[..0] + s.queue[1..] == ["job3"];
    assert GetNextJob(s) == (s.(queue := ["job3"]), Some("job2"));
    var cleared := Clear(s.jobs - {"job2"}, {"job3"}, "job2");
    assert cleared.Keys == {"job3"} && cleared["job3"] == {};
    assert cleared == map["job3" := {}];
    assert s.dependents - {"job2"} == map[];
  }

  /** Third ProcessJob of the demo: job3 runs and nothing is left. */
  lemma DemoThirdStep()
    ensures ProcessJob(Sched(map["job3" := {}], ["job3"], map[])) == (Empty, Some("job3"))
  {
    var s := Sched(map["job3" := {}], ["job3"], map[]);
    assert Ready(s.jobs, s.queue[0]);
    assert FirstReady(s.jobs, s.queue) == Some(0);
    assert GetNextJob(s) == (s.(queue := []), Some("job3"));
    assert Clear(s.jobs - {"job3"}, {}, "job3") == map[];
  }

  /** The demo processes job1, job2 and job3 in that order and leaves the
      scheduler empty; a fourth ProcessJob finds no job. */
  lemma DemoProcessesInOrder()
    ensures ProcessJob(DemoStart()).1 == Some("job1")
    ensures ProcessJob(ProcessJob(DemoStart()).0).1 == Some("job2")
    ensures ProcessJob(ProcessJob(ProcessJob(DemoStart()).0).0).1 == Some("job3")
    ensures ProcessJob(ProcessJob(ProcessJob(DemoStart()).0).0).0 == Empty
    ensures ProcessJob(Empty) == (Empty, None)
  {
    DemoStartState();
    DemoFirstStep();
    DemoSecondStep();
    DemoThirdStep();
  }

  /** A job waiting on an id that is never added is never returned, and
      becomes ready once that dependency is removed by hand. */
  lemma MissingDependencyBlocksUntilRemoved()
    ensures GetNextJob(AddJob(Empty, "x", ["y"])).1 == None
    ensures GetNextJob(RemoveDependency(AddJob(Empty, "x", ["y"]), "x", "y")).1 == Some("x")
  {
    var s := AddJob(Empty, "x", ["y"]);
    assert s.queue == ["x"] && s.jobs["x"] == {"y"};
    assert !Ready(s.jobs, s.queue[0]);
    var r := RemoveDependency(s, "x", "y");
    assert r.queue == ["x"] && r.jobs["x"] == {};
    assert FirstReady(r.jobs, r.queue) == Some(0);
  }

  /** RemoveDependency prunes nothing: the entry of the dependency stays in
      the reverse index after its last waiting job leaves it. */
  lemma RemoveDependencyLeavesEmptyEntry()
    ensures var r := RemoveDependency(AddJob(Empty, "x", ["y"]), "x", "y");
      "y" in r.dependents && r.dependents["y"] == {}
  {
    var s := AddJob(Empty, "x", ["y"]);
    assert s.dependents["y"] == {"x"};
  }

  /** The demo of main.go, run on the class: the ids ProcessJob reports, in
      order, for three calls and one more on the drained scheduler. */
  method Demo() returns (processed: seq<Option<string>>)
    ensures processed == [Some("job1"), Some("job2"), Some("job3"), None]
  {
    var scheduler := new JobsScheduler.JobScheduler();
    scheduler.AddJob("job1", []);
    scheduler.AddJob("job2", ["job1"]);
    scheduler.AddJob("job3", ["job1", "job2"]);
    assert scheduler.State() == DemoStart();
    DemoProcessesInOrder();

    var first := scheduler.ProcessJob();
    var second := scheduler.ProcessJob();
    var third := scheduler.ProcessJob();
    var fourth := scheduler.ProcessJob();
    processed := [first, second, third, fourth];
  }

}
