/**
  No fiber on two threads (acid/common/scheduler.cpp lines 171-225, acid/common/fiber.cpp lines 165-204):
  a fiber woken at most once per park is in flight on at most one worker, and resume() never finds it
  running or finished. A second wake-up breaks this.
 */
module Exclusivity {
  import opened Options
  import opened Scheduling

  // ---- counting ----

  function CountIf<T>(q: seq<T>, p: T -> bool): nat {
    if q == [] then 0 else (if p(q[0]) then 1 else 0) + CountIf(q[1..], p)
  }

  lemma {:induction false} CountAppend<T>(xs: seq<T>, ys: seq<T>, p: T -> bool)
    ensures CountIf(xs + ys, p) == CountIf(xs, p) + CountIf(ys, p)
  {
    if xs == [] {
      assert xs + ys == ys;
    } else {
      assert (xs + ys)[1..] == xs[1..] + ys;
      CountAppend(xs[1..], ys, p);
    }
  }

  lemma CountRemove<T>(q: seq<T>, n: nat, p: T -> bool)
    requires n < |q|
    ensures CountIf(q, p) == CountIf(RemoveAt(q, n), p) + (if p(q[n]) then 1 else 0)
  {
    assert q == q[..n] + ([q[n]] + q[n + 1..]);
    CountAppend(q[..n], [q[n]] + q[n + 1..], p);
    CountAppend(q[..n], q[n + 1..], p);
  }

  lemma {:induction false} CountUpdate<T>(q: seq<T>, k: nat, x: T, p: T -> bool)
    requires k < |q|
    ensures CountIf(q[k := x], p) + (if p(q[k]) then 1 else 0) == CountIf(q, p) + (if p(x) then 1 else 0)
  {
    if k > 0 {
      assert q[k := x][1..] == q[1..][k - 1 := x];
      CountUpdate(q[1..], k - 1, x, p);
    }
  }

  lemma {:induction false} CountPositive<T>(q: seq<T>, i: nat, p: T -> bool)
    requires i < |q| && p(q[i])
    ensures CountIf(q, p) >= 1
  {
    if i > 0 {
      CountPositive(q[1..], i - 1, p);
    }
  }

  lemma {:induction false} CountTwo<T>(q: seq<T>, i: nat, j: nat, p: T -> bool)
    requires i < j < |q| && p(q[i]) && p(q[j])
    ensures CountIf(q, p) >= 2
  {
    if i > 0 {
      CountTwo(q[1..], i - 1, j - 1, p);
    } else {
      CountPositive(q[1..], j - 1, p);
    }
  }

  // ---- wake-ups outstanding for a fiber ----

  function QueuedFor(f: Fid): Task -> bool {
    (t: Task) => t.work == FiberWork(f)
  }

  function TakenFor(f: Fid): Job -> bool {
    (j: Job) => j.fiber == Some(f) && !j.running
  }

  function RunningFor(f: Fid): Job -> bool {
    (j: Job) => j.fiber == Some(f) && j.running
  }

  function InFlightFor(f: Fid): Job -> bool {
    (j: Job) => j.fiber == Some(f)
  }

  /** Wake-ups of `f` not consumed by a resume() yet. */
  function Outstanding(s: State, f: Fid): nat {
    CountIf(s.tasklist, QueuedFor(f)) + CountIf(s.jobs, TakenFor(f))
  }

  /** One wake-up per park: nobody schedules a fiber that has one outstanding or that is finished, and a
      fiber does not finish with one outstanding. */
  predicate Disciplined(s: State, a: Step) {
    match a
    case Schedule(task) =>
      task.work.FiberWork? ==>
        task.work.f in s.fibers && s.fibers[task.work.f] != TERM && Outstanding(s, task.work.f) == 0
    case Finish(tid) =>
      var k := JobOf(s.jobs, tid);
      k < |s.jobs| && s.jobs[k].fiber.Some? ==> Outstanding(s, s.jobs[k].fiber.value) == 0
    case _ => true
  }

  predicate ExclusiveFor(s: State, f: Fid) {
    var taken := CountIf(s.jobs, TakenFor(f));
    var running := CountIf(s.jobs, RunningFor(f));
    && Outstanding(s, f) <= 1
    && (f !in s.fibers ==> Outstanding(s, f) == 0 && running == 0)
    && (f in s.fibers ==>
          && running == (if s.fibers[f] == RUNNING then 1 else 0)
          && (taken > 0 ==> s.fibers[f] == READY)
          && (Outstanding(s, f) > 0 ==> s.fibers[f] != TERM))
  }

  ghost predicate Exclusive(s: State) {
    forall f :: ExclusiveFor(s, f)
  }

  lemma TakeKeepsFor(s: State, tid: Tid, f: Fid)
    requires ExclusiveFor(s, f) && TakeStep(s, tid).Some?
    ensures ExclusiveFor(TakeStep(s, tid).value, f)
  {
    var n := FirstEligible(s.tasklist, tid, s.fibers);
    var job := Job(tid, s.tasklist[n], FiberOf(s.tasklist[n].work), false);
    CountRemove(s.tasklist, n, QueuedFor(f));
    CountAppend(s.jobs, [job], TakenFor(f));
    CountAppend(s.jobs, [job], RunningFor(f));
  }

  lemma ResumeKeepsFor(s: State, tid: Tid, f: Fid)
    requires ExclusiveFor(s, f) && ResumeStep(s, tid).Some?
    ensures ExclusiveFor(ResumeStep(s, tid).value, f)
  {
    var k := JobOf(s.jobs, tid);
    SwitchCounts(s, k, s.jobs[k].fiber.value, f);
    if TakenFor(f)(s.jobs[k]) {
      CountPositive(s.jobs, k, TakenFor(f));
    }
  }

  lemma SwitchCounts(s: State, k: nat, g: Fid, f: Fid)
    requires k < |s.jobs| && !s.jobs[k].running
    ensures var t := SwitchTo(s, k, g);
      && CountIf(t.jobs, TakenFor(f)) + (if s.jobs[k].fiber == Some(f) then 1 else 0) == CountIf(s.jobs, TakenFor(f))
      && CountIf(t.jobs, RunningFor(f)) == CountIf(s.jobs, RunningFor(f)) + (if g == f then 1 else 0)
  {
    var job := s.jobs[k].(running := true, fiber := Some(g));
    CountUpdate(s.jobs, k, job, TakenFor(f));
    CountUpdate(s.jobs, k, job, RunningFor(f));
  }

  /** A fiber that was not there has no wake-ups, and the new one runs on this worker alone. */
  lemma StartKeepsFor(s: State, tid: Tid, g: Fid, f: Fid)
    requires ExclusiveFor(s, f) && StartStep(s, tid, g).Some?
    ensures ExclusiveFor(StartStep(s, tid, g).value, f)
  {
    SwitchCounts(s, JobOf(s.jobs, tid), g, f);
  }

  lemma BackKeepsFor(s: State, tid: Tid, x: FiberState, f: Fid)
    requires ExclusiveFor(s, f) && BackStep(s, tid, x).Some? && x != RUNNING
    requires x == TERM ==> Disciplined(s, Finish(tid))
    ensures ExclusiveFor(BackStep(s, tid, x).value, f)
  {
    var k := JobOf(s.jobs, tid);
    CountRemove(s.jobs, k, TakenFor(f));
    CountRemove(s.jobs, k, RunningFor(f));
    if RunningFor(f)(s.jobs[k]) {
      CountPositive(s.jobs, k, RunningFor(f));
    }
  }

  lemma ScheduleKeepsFor(s: State, task: Task, f: Fid)
    requires ExclusiveFor(s, f) && Disciplined(s, Schedule(task))
    ensures ExclusiveFor(Next(s, Schedule(task)).value, f)
  {
    CountAppend(s.tasklist, [task], QueuedFor(f));
  }

  lemma NextKeepsExclusive(s: State, a: Step)
    requires Exclusive(s) && Disciplined(s, a) && Next(s, a).Some?
    ensures Exclusive(Next(s, a).value)
  {
    forall f ensures ExclusiveFor(Next(s, a).value, f) {
      assert ExclusiveFor(s, f);
      match a
      case Create(_) =>
      case Schedule(task) => ScheduleKeepsFor(s, task, f);
      case Take(tid) => TakeKeepsFor(s, tid, f);
      case Resume(tid) => ResumeKeepsFor(s, tid, f);
      case Start(tid, g) => StartKeepsFor(s, tid, g, f);
      case Yield(tid) => BackKeepsFor(s, tid, READY, f);
      case Finish(tid) => BackKeepsFor(s, tid, TERM, f);
      case Stop =>
    }
  }

  predicate DisciplinedRun(s: State, steps: seq<Step>)
    decreases |steps|
  {
    steps == [] || Next(s, steps[0]).None?
    || (Disciplined(s, steps[0]) && DisciplinedRun(Next(s, steps[0]).value, steps[1..]))
  }

  lemma {:induction false} RunKeepsExclusive(s: State, steps: seq<Step>)
    requires Exclusive(s) && DisciplinedRun(s, steps)
    ensures Exclusive(Run(s, steps))
    decreases |steps|
  {
    if steps != [] && Next(s, steps[0]).Some? {
      NextKeepsExclusive(s, steps[0]);
      RunKeepsExclusive(Next(s, steps[0]).value, steps[1..]);
    }
  }

  lemma {:induction false} CountSplits(jobs: seq<Job>, f: Fid)
    ensures CountIf(jobs, InFlightFor(f)) == CountIf(jobs, TakenFor(f)) + CountIf(jobs, RunningFor(f))
  {
    if jobs != [] {
      CountSplits(jobs[1..], f);
    }
  }

  /** In every run with one wake-up per park, under any interleaving of the workers: two workers never hold
      the same fiber, be it one that was scheduled or one that was made for a callback. */
  lemma FiberOnOneThread(fibers: set<Fid>, steps: seq<Step>, i: nat, j: nat)
    requires DisciplinedRun(Init(fibers), steps)
    requires i < j < |Run(Init(fibers), steps).jobs|
    ensures var s := Run(Init(fibers), steps);
      s.jobs[i].fiber.Some? ==> s.jobs[i].fiber != s.jobs[j].fiber
  {
    var s := Run(Init(fibers), steps);
    RunKeepsExclusive(Init(fibers), steps);
    if s.jobs[i].fiber.Some? && s.jobs[i].fiber == s.jobs[j].fiber {
      var f := s.jobs[i].fiber.value;
      assert ExclusiveFor(s, f);
      CountSplits(s.jobs, f);
      CountTwo(s.jobs, i, j, InFlightFor(f));
    }
  }

  /** In such a run resume()'s assertion holds whenever a worker is about to resume a fiber it has taken. */
  lemma ResumeAssertionHolds(fibers: set<Fid>, steps: seq<Step>, i: nat)
    requires DisciplinedRun(Init(fibers), steps)
    requires i < |Run(Init(fibers), steps).jobs| && !Run(Init(fibers), steps).jobs[i].running
    ensures var s := Run(Init(fibers), steps);
      s.jobs[i].task.work.FiberWork? ==>
        s.jobs[i].fiber == Some(s.jobs[i].task.work.f) && Resumable(s.fibers, s.jobs[i].task.work.f)
  {
    var s := Run(Init(fibers), steps);
    RunKeepsExclusive(Init(fibers), steps);
    RunConserves(Init(fibers), steps);
    if s.jobs[i].task.work.FiberWork? {
      assert Manned(s.jobs[i]);
      var f := s.jobs[i].task.work.f;
      CountPositive(s.jobs, i, TakenFor(f));
      assert ExclusiveFor(s, f);
    }
  }

  /** Two wake-ups of a parked fiber at the head of the list: two free workers can both take it, since it
      is marked running only at resume(), outside the lock. */
  lemma SecondWakeBreaksExclusion(s: State, f: Fid, a: Tid, b: Tid)
    requires a != b && JobOf(s.jobs, a) == |s.jobs| && JobOf(s.jobs, b) == |s.jobs|
    requires f in s.fibers && s.fibers[f] == READY
    requires |s.tasklist| >= 2 && s.tasklist[0] == s.tasklist[1] == Task(FiberWork(f), None)
    ensures Next(s, Take(a)).Some?
    ensures var s1 := Next(s, Take(a)).value;
      && Next(s1, Take(b)).Some?
      && var s2 := Next(s1, Take(b)).value;
      && s2.jobs == s.jobs + [Job(a, Task(FiberWork(f), None), Some(f), false),
                              Job(b, Task(FiberWork(f), None), Some(f), false)]
      && s2.fibers == s.fibers
  {
    var job := Job(a, Task(FiberWork(f), None), Some(f), false);
    var s1 := Next(s, Take(a)).value;
    assert s1.jobs == s.jobs + [job] && s1.tasklist[0] == s.tasklist[1];
    JobOfAppend(s.jobs, job, b);
  }

  /** Once two workers hold the fiber, whichever resumes second fails resume()'s assertion (and without
      assertions would run the fiber on two threads). */
  lemma SecondResumeFails(s: State, f: Fid, a: Tid, b: Tid)
    requires a != b && JobOf(s.jobs, a) < |s.jobs| && JobOf(s.jobs, b) < |s.jobs|
    requires s.jobs[JobOf(s.jobs, a)].fiber == s.jobs[JobOf(s.jobs, b)].fiber == Some(f)
    requires Next(s, Resume(a)).Some?
    ensures Next(Next(s, Resume(a)).value, Resume(b)).None?
  {
    var k := JobOf(s.jobs, a);
    JobOfUpdate(s.jobs, k, s.jobs[k].(running := true, fiber := Some(f)), b);
  }

  lemma {:induction false} JobOfAppend(jobs: seq<Job>, j: Job, tid: Tid)
    ensures JobOf(jobs + [j], tid) ==
      (if JobOf(jobs, tid) < |jobs| then JobOf(jobs, tid) else if j.tid == tid then |jobs| else |jobs| + 1)
  {
    if jobs != [] {
      assert (jobs + [j])[1..] == jobs[1..] + [j];
      JobOfAppend(jobs[1..], j, tid);
    }
  }

  lemma {:induction false} JobOfUpdate(jobs: seq<Job>, k: nat, j: Job, tid: Tid)
    requires k < |jobs| && jobs[k].tid == j.tid
    ensures JobOf(jobs[k := j], tid) == JobOf(jobs, tid)
  {
    if k > 0 && jobs[0].tid != tid {
      assert jobs[k := j][1..] == jobs[1..][k - 1 := j];
      JobOfUpdate(jobs[1..], k - 1, j, tid);
    }
  }
}
