/**
  The fiber scheduler (acid/common/scheduler.cpp, scheduler.h, fiber.cpp) as a step system: any number of
  worker threads share one task list; a step is one critical section on the list, one resume(), one
  yield() or the end of a fiber.
 */
module Scheduling {
  import opened Options

  type Fid = nat
  type Tid = t: nat | 0 < t witness 1

  datatype FiberState = READY | RUNNING | TERM

  datatype Work = FiberWork(f: Fid) | CallbackWork(c: nat)

  /** ScheduleTask; `thread` None is the source's -1, any thread. */
  datatype Task = Task(work: Work, thread: Option<Tid>)

  /** A task a worker has taken off the list, and the fiber it runs on; `running` once that was resumed. A callback
      gets its fiber when it is started. */
  datatype Job = Job(tid: Tid, task: Task, fiber: Option<Fid>, running: bool)

  function FiberOf(w: Work): Option<Fid> {
    if w.FiberWork? then Some(w.f) else None
  }

  datatype State = State(
    tasklist: seq<Task>,
    fibers: map<Fid, FiberState>,
    jobs: seq<Job>,
    active: int,                   // m_active_thread_count
    stopping: bool,                // m_stopping
    scheduled: multiset<Task>,     // history: every task ever pushed
    done: multiset<Task>)          // history: every task whose resume() came back

  function Init(fibers: set<Fid>): State {
    State([], map f | f in fibers :: READY, [], 0, false, multiset{}, multiset{})
  }

  // ---- the dequeue loop of run() ----

  predicate Mine(t: Task, tid: Tid) {
    t.thread.None? || t.thread == Some(tid)
  }

  predicate Busy(t: Task, fibers: map<Fid, FiberState>) {
    t.work.FiberWork? && t.work.f in fibers && fibers[t.work.f] == RUNNING
  }

  predicate Eligible(t: Task, tid: Tid, fibers: map<Fid, FiberState>) {
    Mine(t, tid) && !Busy(t, fibers)
  }

  /** The earliest eligible task, or the length of the list. */
  function FirstEligible(q: seq<Task>, tid: Tid, fibers: map<Fid, FiberState>): (n: nat)
    ensures n <= |q|
    ensures n < |q| ==> Eligible(q[n], tid, fibers)
    ensures forall i :: 0 <= i < n ==> !Eligible(q[i], tid, fibers)
  {
    if q == [] || Eligible(q[0], tid, fibers) then 0 else 1 + FirstEligible(q[1..], tid, fibers)
  }

  function RemoveAt<T>(q: seq<T>, n: nat): seq<T>
    requires n < |q|
  {
    q[..n] + q[n + 1..]
  }

  /** tickle_me after the scan: another thread's task was passed over, or tasks follow the one taken. */
  predicate TickleAfter(q: seq<Task>, tid: Tid, fibers: map<Fid, FiberState>) {
    var n := FirstEligible(q, tid, fibers);
    (exists i :: 0 <= i < n && !Mine(q[i], tid)) || n + 1 < |q|
  }

  /** When the scan tells nobody, nothing it leaves in the list could be started by any thread now. */
  lemma NoTickleLeavesOnlyRunningFibers(q: seq<Task>, tid: Tid, fibers: map<Fid, FiberState>)
    requires !TickleAfter(q, tid, fibers)
    ensures var n := FirstEligible(q, tid, fibers);
      forall t :: t in (if n < |q| then RemoveAt(q, n) else q) ==> Busy(t, fibers)
  {
    var n := FirstEligible(q, tid, fibers);
    var rest := if n < |q| then RemoveAt(q, n) else q;
    forall t | t in rest ensures Busy(t, fibers) {
      var i :| 0 <= i < |rest| && rest[i] == t;
      assert i < n && rest[i] == q[i];
      assert !Eligible(q[i], tid, fibers);
    }
  }

  // ---- steps ----

  datatype Step =
    | Create(f: Fid)           // a new fiber, made by anyone
    | Schedule(task: Task)
    | Take(tid: Tid)           // the critical section of run()
    | Resume(tid: Tid)         // of a fiber
    | Start(tid: Tid, f: Fid)  // of a callback, on a new fiber
    | Yield(tid: Tid)
    | Finish(tid: Tid)         // the fiber's function returns
    | Stop

  /** The worker's job, by position, or the number of jobs if it has none. */
  function JobOf(jobs: seq<Job>, tid: Tid): (n: nat)
    ensures n <= |jobs|
    ensures n < |jobs| ==> jobs[n].tid == tid
    ensures forall i :: 0 <= i < n ==> jobs[i].tid != tid
  {
    if jobs == [] || jobs[0].tid == tid then 0 else 1 + JobOf(jobs[1..], tid)
  }

  /** resume() asserts that the fiber is neither running nor finished. */
  predicate Resumable(fibers: map<Fid, FiberState>, f: Fid) {
    f in fibers && fibers[f] == READY
  }

  function TakeStep(s: State, tid: Tid): Option<State> {
    var n := FirstEligible(s.tasklist, tid, s.fibers);
    if JobOf(s.jobs, tid) < |s.jobs| || n == |s.tasklist| then None
    else Some(s.(tasklist := RemoveAt(s.tasklist, n),
                 jobs := s.jobs + [Job(tid, s.tasklist[n], FiberOf(s.tasklist[n].work), false)],
                 active := s.active + 1))
  }

  /** The worker is back in run() after its task gave up the thread. */
  function BackStep(s: State, tid: Tid, x: FiberState): Option<State> {
    var k := JobOf(s.jobs, tid);
    if k == |s.jobs| || !s.jobs[k].running || s.jobs[k].fiber.None? then None
    else
      Some(s.(jobs := RemoveAt(s.jobs, k), fibers := s.fibers[s.jobs[k].fiber.value := x],
              active := s.active - 1, done := s.done + multiset{s.jobs[k].task}))
  }

  /** The worker switches to the fiber of its job. */
  function SwitchTo(s: State, k: nat, f: Fid): State
    requires k < |s.jobs|
  {
    s.(jobs := s.jobs[k := s.jobs[k].(running := true, fiber := Some(f))], fibers := s.fibers[f := RUNNING])
  }

  function ResumeStep(s: State, tid: Tid): Option<State> {
    var k := JobOf(s.jobs, tid);
    if k == |s.jobs| || s.jobs[k].running || s.jobs[k].fiber.None? || !Resumable(s.fibers, s.jobs[k].fiber.value)
    then None
    else Some(SwitchTo(s, k, s.jobs[k].fiber.value))
  }

  /** A callback is wrapped into a fiber that nobody else knows. */
  function StartStep(s: State, tid: Tid, f: Fid): Option<State> {
    var k := JobOf(s.jobs, tid);
    if k == |s.jobs| || s.jobs[k].running || s.jobs[k].fiber.Some? || f in s.fibers then None
    else Some(SwitchTo(s, k, f))
  }

  /** None: the step is not possible, or an assertion of the code fails. */
  function Next(s: State, a: Step): Option<State> {
    match a
    case Create(f) => if f in s.fibers then None else Some(s.(fibers := s.fibers[f := READY]))
    case Schedule(task) => Some(s.(tasklist := s.tasklist + [task], scheduled := s.scheduled + multiset{task}))
    case Take(tid) => TakeStep(s, tid)
    case Resume(tid) => ResumeStep(s, tid)
    case Start(tid, f) => StartStep(s, tid, f)
    case Yield(tid) => BackStep(s, tid, READY)
    case Finish(tid) => BackStep(s, tid, TERM)
    case Stop => Some(s.(stopping := true))
  }

  function Run(s: State, steps: seq<Step>): State
    decreases |steps|
  {
    if steps == [] || Next(s, steps[0]).None? then s else Run(Next(s, steps[0]).value, steps[1..])
  }

  // ---- what the steps do ----

  /** Another thread's task, or a fiber that still runs. */
  predicate PassedOver(t: Task, tid: Tid, fibers: map<Fid, FiberState>) {
    || (t.thread.Some? && t.thread.value != tid)
    || (t.work.FiberWork? && t.work.f in fibers && fibers[t.work.f] == RUNNING)
  }

  /** A scheduled task goes last. */
  lemma SchedulesLast(s: State, task: Task)
    ensures var t := Next(s, Schedule(task));
      && t.Some? && t.value.tasklist == s.tasklist + [task] && t.value.scheduled == s.scheduled + multiset{task}
      && t.value.jobs == s.jobs && t.value.fibers == s.fibers && t.value.active == s.active
  {
  }

  /** An idle worker can take a task exactly if there is one not to be passed over, and takes the earliest such. */
  lemma TakesTheEarliest(s: State, tid: Tid)
    requires JobOf(s.jobs, tid) == |s.jobs|
    ensures Next(s, Take(tid)).Some? <==> exists t :: t in s.tasklist && !PassedOver(t, tid, s.fibers)
    ensures Next(s, Take(tid)).Some? ==>
      exists n: nat :: n < |s.tasklist|
        && (forall i :: 0 <= i < n ==> PassedOver(s.tasklist[i], tid, s.fibers))
        && !PassedOver(s.tasklist[n], tid, s.fibers)
        && Next(s, Take(tid)) == Some(s.(
             tasklist := s.tasklist[..n] + s.tasklist[n + 1..], active := s.active + 1,
             jobs := s.jobs + [Job(tid, s.tasklist[n], FiberOf(s.tasklist[n].work), false)]))
  {
    var n := FirstEligible(s.tasklist, tid, s.fibers);
    forall t ensures PassedOver(t, tid, s.fibers) <==> !Eligible(t, tid, s.fibers) {
    }
    forall i | 0 <= i < n ensures PassedOver(s.tasklist[i], tid, s.fibers) {
      assert !Eligible(s.tasklist[i], tid, s.fibers);
    }
    if n < |s.tasklist| {
      assert s.tasklist[n] in s.tasklist;
    }
  }

  /** A worker whose task gave up the thread: its fiber is ready again, or finished; its job is done, and the
      worker idle. */
  lemma GivesUpTheThread(s: State, tid: Tid, k: nat, f: Fid)
    requires k < |s.jobs| && s.jobs[k] == Job(tid, s.jobs[k].task, Some(f), true)
    requires forall i, j :: 0 <= i < j < |s.jobs| ==> s.jobs[i].tid != s.jobs[j].tid
    ensures var y, e := Next(s, Yield(tid)), Next(s, Finish(tid));
      && y.Some? && e.Some?
      && y.value.fibers == s.fibers[f := READY] && e.value.fibers == s.fibers[f := TERM]
      && y.value.jobs == e.value.jobs == s.jobs[..k] + s.jobs[k + 1..]
      && y.value.done == e.value.done == s.done + multiset{s.jobs[k].task}
      && y.value.tasklist == e.value.tasklist == s.tasklist
  {
    assert JobOf(s.jobs, tid) == k;
  }

  // ---- conservation ----

  function TasksOf(jobs: seq<Job>): seq<Task> {
    if jobs == [] then [] else [jobs[0].task] + TasksOf(jobs[1..])
  }

  lemma {:induction false} TasksOfAppend(xs: seq<Job>, ys: seq<Job>)
    ensures TasksOf(xs + ys) == TasksOf(xs) + TasksOf(ys)
  {
    if xs == [] {
      assert xs + ys == ys;
    } else {
      assert (xs + ys)[1..] == xs[1..] + ys;
      TasksOfAppend(xs[1..], ys);
    }
  }

  lemma SplitMultiset(a: seq<Task>, t: Task, c: seq<Task>)
    ensures multiset(a + ([t] + c)) == multiset(a + c) + multiset{t}
  {
  }

  lemma {:induction false} TasksOfRemove(jobs: seq<Job>, k: nat)
    requires k < |jobs|
    ensures multiset(TasksOf(jobs)) == multiset(TasksOf(RemoveAt(jobs, k))) + multiset{jobs[k].task}
  {
    var rest := jobs[1..];
    FirstTask(jobs);
    RemoveHeadOrTail(jobs, k);
    if k == 0 {
      Regroup(multiset{}, multiset(TasksOf(rest)), multiset{jobs[0].task});
    } else {
      var left := RemoveAt(jobs, k);
      TasksOfRemove(rest, k - 1);
      FirstTask(left);
      Regroup(multiset{jobs[0].task}, multiset(TasksOf(left[1..])), multiset{jobs[k].task});
    }
  }

  lemma Regroup(a: multiset<Task>, b: multiset<Task>, c: multiset<Task>)
    ensures a + (b + c) == (a + b) + c && b + c == c + b
  {
  }

  lemma RemoveHeadOrTail(jobs: seq<Job>, k: nat)
    requires k < |jobs|
    ensures if k == 0 then RemoveAt(jobs, k) == jobs[1..]
      else RemoveAt(jobs, k)[0] == jobs[0] && RemoveAt(jobs, k)[1..] == RemoveAt(jobs[1..], k - 1)
  {
  }

  lemma FirstTask(jobs: seq<Job>)
    requires jobs != []
    ensures multiset(TasksOf(jobs)) == multiset{jobs[0].task} + multiset(TasksOf(jobs[1..]))
  {
    assert TasksOf(jobs) == [jobs[0].task] + TasksOf(jobs[1..]);
  }

  lemma {:induction false} TasksOfUpdate(jobs: seq<Job>, k: nat, j: Job)
    requires k < |jobs| && j.task == jobs[k].task
    ensures TasksOf(jobs[k := j]) == TasksOf(jobs)
  {
    if k > 0 {
      assert jobs[k := j][1..] == jobs[1..][k - 1 := j];
      TasksOfUpdate(jobs[1..], k - 1, j);
    }
  }

  lemma RemoveMultiset(q: seq<Task>, n: nat)
    requires n < |q|
    ensures multiset(q) == multiset(RemoveAt(q, n)) + multiset{q[n]}
  {
    assert q == q[..n] + ([q[n]] + q[n + 1..]);
    SplitMultiset(q[..n], q[n], q[n + 1..]);
  }

  /** Every task ever scheduled is in the list, in flight on one worker, or done. */
  predicate Accounted(s: State) {
    s.scheduled == multiset(s.tasklist) + multiset(TasksOf(s.jobs)) + s.done
  }

  /** A task that is a fiber runs on it, a callback on a fiber it got when it was started. */
  predicate Manned(j: Job) {
    && (j.task.work.FiberWork? ==> j.fiber == Some(j.task.work.f))
    && (j.running ==> j.fiber.Some?)
    && (j.fiber.Some? && !j.running ==> j.task.work.FiberWork?)
  }

  /** The active count is the number of tasks in flight; a worker has one at a time, and a pinned one only
      if it is its own. */
  predicate Staffed(s: State) {
    && s.active == |s.jobs|
    && (forall i, j :: 0 <= i < j < |s.jobs| ==> s.jobs[i].tid != s.jobs[j].tid)
    && (forall i :: 0 <= i < |s.jobs| ==> Mine(s.jobs[i].task, s.jobs[i].tid) && Manned(s.jobs[i]))
  }

  predicate Conserved(s: State) {
    Accounted(s) && Staffed(s)
  }

  lemma NextStaffs(s: State, a: Step)
    requires Staffed(s) && Next(s, a).Some?
    ensures Staffed(Next(s, a).value)
  {
    if a.Resume? || a.Start? {
      var jobs := Next(s, a).value.jobs;
      assert forall i :: 0 <= i < |jobs| ==> jobs[i].tid == s.jobs[i].tid && jobs[i].task == s.jobs[i].task;
    } else if a.Yield? || a.Finish? {
      RemoveStaffs(s.jobs, JobOf(s.jobs, a.tid));
    }
  }

  lemma RemoveStaffs(jobs: seq<Job>, k: nat)
    requires k < |jobs|
    requires forall i, j :: 0 <= i < j < |jobs| ==> jobs[i].tid != jobs[j].tid
    requires forall i :: 0 <= i < |jobs| ==> Mine(jobs[i].task, jobs[i].tid) && Manned(jobs[i])
    ensures var r := RemoveAt(jobs, k);
      && |r| == |jobs| - 1
      && (forall i, j :: 0 <= i < j < |r| ==> r[i].tid != r[j].tid)
      && (forall i :: 0 <= i < |r| ==> Mine(r[i].task, r[i].tid) && Manned(r[i]))
  {
    var r := RemoveAt(jobs, k);
    assert forall i :: 0 <= i < |r| ==> r[i] == (if i < k then jobs[i] else jobs[i + 1]);
  }

  lemma TakeAccounts(s: State, tid: Tid)
    requires Accounted(s) && TakeStep(s, tid).Some?
    ensures Accounted(TakeStep(s, tid).value)
  {
    var n := FirstEligible(s.tasklist, tid, s.fibers);
    RemoveMultiset(s.tasklist, n);
    var job := Job(tid, s.tasklist[n], FiberOf(s.tasklist[n].work), false);
    TasksOfAppend(s.jobs, [job]);
    assert TasksOf([job]) == [s.tasklist[n]];
  }

  lemma SwitchAccounts(s: State, k: nat, f: Fid)
    requires Accounted(s) && k < |s.jobs|
    ensures Accounted(SwitchTo(s, k, f))
  {
    TasksOfUpdate(s.jobs, k, s.jobs[k].(running := true, fiber := Some(f)));
  }

  lemma BackAccounts(s: State, tid: Tid, x: FiberState)
    requires Accounted(s) && BackStep(s, tid, x).Some?
    ensures Accounted(BackStep(s, tid, x).value)
  {
    TasksOfRemove(s.jobs, JobOf(s.jobs, tid));
  }

  lemma NextAccounts(s: State, a: Step)
    requires Accounted(s) && Next(s, a).Some?
    ensures Accounted(Next(s, a).value)
  {
    match a
    case Take(tid) => TakeAccounts(s, tid);
    case Resume(tid) => SwitchAccounts(s, JobOf(s.jobs, tid), s.jobs[JobOf(s.jobs, tid)].fiber.value);
    case Start(tid, f) => SwitchAccounts(s, JobOf(s.jobs, tid), f);
    case Yield(tid) => BackAccounts(s, tid, READY);
    case Finish(tid) => BackAccounts(s, tid, TERM);
    case _ =>
  }

  lemma {:induction false} RunConserves(s: State, steps: seq<Step>)
    requires Conserved(s)
    ensures Conserved(Run(s, steps))
    decreases |steps|
  {
    if steps != [] && Next(s, steps[0]).Some? {
      NextAccounts(s, steps[0]);
      NextStaffs(s, steps[0]);
      RunConserves(Next(s, steps[0]).value, steps[1..]);
    }
  }

  /** Whatever the interleaving: no task is lost or run twice, the active count is exact, pinned tasks
      stay on their thread, and when stopping() answers true every scheduled task is done. */
  lemma TasksConserved(fibers: set<Fid>, steps: seq<Step>)
    ensures var s := Run(Init(fibers), steps);
      && s.scheduled == multiset(s.tasklist) + multiset(TasksOf(s.jobs)) + s.done
      && s.active == |s.jobs|
      && (forall i :: 0 <= i < |s.jobs| ==>
            s.jobs[i].task.thread.Some? ==> s.jobs[i].task.thread.value == s.jobs[i].tid)
      && (s.stopping && s.tasklist == [] && s.active == 0 ==> s.done == s.scheduled)
  {
    RunConserves(Init(fibers), steps);
  }
}
