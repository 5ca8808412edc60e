/**
  When a release of the fiber mutex can leave a sleeper behind, and what re-entry does to exclusion
  (acid/common/co_mutex.cpp lines 8-54).
 */
module CoMutexWakeups {
  import opened Options
  import opened CoMutexSteps

  // ---- unlock() as one step: a free lock with waiters always has a woken waiter coming ----

  predicate AtomicUnlocks(acts: seq<Action>) {
    forall i :: 0 <= i < |acts| ==> !acts[i].StartUnlock? && !acts[i].Relock?
  }

  /** A woken waiter on its way to test the lock again. */
  predicate Coming(s: State, w: Fid) {
    w in s.ready || (Known(s, w) && (s.pc[w].FirstTry? || s.pc[w].WantGuard? || s.pc[w].SecondTry?
                                     || s.pc[w].Enqueueing?))
  }

  /** Nobody is inside the stepwise unlock(), and a fiber queues itself only while the lock is taken. */
  predicate AtomicFor(s: State, f: Fid) {
    Known(s, f) && !Unlocking(s.pc[f]) && (s.pc[f].Enqueueing? ==> s.mutex.Some?)
  }

  ghost predicate HandsOver(s: State) {
    && (forall f :: f in s.fibers ==> AtomicFor(s, f))
    && (forall w :: w in s.woken ==> Coming(s, w))
    && (s.mutex.None? && s.queue != [] ==> s.woken != {})
  }

  lemma AtomicStepFor(s: State, a: Action, g: Fid)
    requires Inv(s) && Next(s, a).Some? && !a.StartUnlock? && !a.Relock?
    requires AtomicFor(s, a.f) && AtomicFor(s, g)
    ensures AtomicFor(Next(s, a).value, g)
  {
    if g == a.f {
      AtomicStepForItself(s, a);
    } else {
      AtomicStepForOther(s, a, g);
    }
  }

  lemma AtomicStepForItself(s: State, a: Action)
    requires Inv(s) && Next(s, a).Some? && !a.StartUnlock? && !a.Relock? && AtomicFor(s, a.f)
    ensures AtomicFor(Next(s, a).value, a.f)
  {
    if a.Advance? {
      AtomicAdvance(s, a.f);
    }
  }

  lemma AtomicAdvance(s: State, f: Fid)
    requires Known(s, f) && !Unlocking(s.pc[f]) && LockStep(s, f).Some?
    ensures AtomicFor(LockStep(s, f).value, f)
  {
  }

  lemma AtomicStepForOther(s: State, a: Action, g: Fid)
    requires Inv(s) && Next(s, a).Some? && !a.StartUnlock? && !a.Relock? && g != a.f
    requires AtomicFor(s, a.f) && AtomicFor(s, g)
    ensures AtomicFor(Next(s, a).value, g)
  {
    assert LocksAgreeFor(s, a.f) && LocksAgreeFor(s, g);
  }

  lemma AtomicStepComing(s: State, a: Action, w: Fid)
    requires Inv(s) && Next(s, a).Some? && !a.StartUnlock? && !a.Relock? && AtomicFor(s, a.f)
    requires w in s.woken ==> Coming(s, w)
    ensures w in Next(s, a).value.woken ==> Coming(Next(s, a).value, w)
  {
    assert PlacedFor(s, a.f) && LocksAgreeFor(s, a.f);
  }

  lemma AtomicStepHandsOver(s: State, a: Action)
    requires Inv(s) && HandsOver(s) && Next(s, a).Some? && !a.StartUnlock? && !a.Relock?
    ensures HandsOver(Next(s, a).value)
  {
    var t := Next(s, a).value;
    NextKeepsFibers(s, a);
    forall g | g in s.fibers ensures AtomicFor(t, g) { AtomicStepFor(s, a, g); }
    forall w | w in t.woken ensures Coming(t, w) { AtomicStepComing(s, a, w); }
    AtomicStepWakes(s, a);
  }

  lemma AtomicStepWakes(s: State, a: Action)
    requires Inv(s) && Next(s, a).Some? && !a.StartUnlock? && !a.Relock? && AtomicFor(s, a.f)
    requires s.mutex.None? && s.queue != [] ==> s.woken != {}
    ensures var t := Next(s, a).value; t.mutex.None? && t.queue != [] ==> t.woken != {}
  {
    if a.UnlockAtOnce? && s.queue != [] {
      assert s.queue[0] in Next(s, a).value.woken;
    }
  }

  lemma {:induction false} AtomicRunHandsOver(s: State, acts: seq<Action>)
    requires Inv(s) && HandsOver(s) && AtomicUnlocks(acts) && Run(s, acts).Some?
    ensures HandsOver(Run(s, acts).value)
    decreases |acts|
  {
    if acts != [] {
      assert !acts[0].StartUnlock? && !acts[0].Relock?;
      AtomicStepHandsOver(s, acts[0]);
      NextKeepsInv(s, acts[0]);
      AtomicRunHandsOver(Next(s, acts[0]).value, acts[1..]);
    }
  }

  /** With unlock() as one step, whenever the lock is free and somebody is queued, some fiber woken by
      an unlock has yet to test the lock: it is with the scheduler or already in the retry loop. */
  lemma FreeLockHasWokenWaiter(fibers: set<Fid>, acts: seq<Action>)
    requires AtomicUnlocks(acts) && Run(Init(fibers), acts).Some?
    ensures var t := Run(Init(fibers), acts).value;
      t.mutex.None? && t.queue != [] ==> exists w :: w in t.woken && Coming(t, w)
  {
    InitInv(fibers);
    AtomicRunHandsOver(Init(fibers), acts);
    var t := Run(Init(fibers), acts).value;
    if t.mutex.None? && t.queue != [] {
      var w :| w in t.woken;
      assert Coming(t, w);
    }
  }

  // ---- unlock() as written: exactly which step strands a sleeper ----

  /** The lock is free, somebody is queued, and no wake-up is under way. */
  predicate Stranded(s: State) {
    s.mutex.None? && s.queue != [] && s.woken == {} && s.carrier == map[]
  }

  /** No waiter but `f` is on its way to test the lock, with an unlocker or woken. */
  predicate NoOtherComing(s: State, f: Fid) {
    s.woken <= {f} && s.carrier == map[]
  }

  /** The two halves of the window between dropping m_guard and releasing m_mutex: the unlocker popped
      nobody and releases over a queue that filled meanwhile, or a fiber that failed its second try
      queues itself after that release. In both nobody else may be on the way. */
  predicate FallsInWindow(s: State, a: Action) {
    && Known(s, a.f) && a.Advance? && NoOtherComing(s, a.f)
    && ((s.pc[a.f] == ReleaseMutex(None) && s.queue != [] && a.f !in s.woken)
        || (s.pc[a.f].Enqueueing? && s.mutex.None?))
  }

  /** From any state that is not stranded, a step strands a sleeper if and only if it falls in the window. */
  lemma StepStrandsIff(s: State, a: Action)
    requires Inv(s) && !a.Relock? && Next(s, a).Some? && !Stranded(s)
    ensures Stranded(Next(s, a).value) <==> FallsInWindow(s, a)
  {
    var t := Next(s, a).value;
    assert LocksAgreeFor(s, a.f) && PlacedFor(s, a.f);
    if a.Advance? {
      if Unlocking(s.pc[a.f]) {
        UnlockStepStrandsIff(s, a.f);
      } else {
        LockStepStrandsIff(s, a.f);
      }
    } else if a.UnlockAtOnce? && s.queue != [] {
      assert s.queue[0] in t.woken;
    }
  }

  lemma LockStepStrandsIff(s: State, f: Fid)
    requires LocksAgreeFor(s, f) && LockStep(s, f).Some? && !Stranded(s)
    ensures Stranded(LockStep(s, f).value) <==> FallsInWindow(s, Advance(f))
  {
  }

  lemma UnlockStepStrandsIff(s: State, f: Fid)
    requires LocksAgreeFor(s, f) && PlacedFor(s, f) && UnlockStep(s, f).Some? && !Stranded(s)
    ensures Stranded(UnlockStep(s, f).value) <==> FallsInWindow(s, Advance(f))
  {
    var t := UnlockStep(s, f).value;
    if s.pc[f].Wake? && s.pc[f].hand.Some? {
      assert s.pc[f].hand.value in t.woken;
    }
    if s.pc[f].PopWaiter? && s.queue != [] {
      assert s.queue[0] in t.carrier;
    }
  }

  predicate AvoidsWindow(s: State, acts: seq<Action>)
    decreases |acts|
  {
    acts == [] || (Next(s, acts[0]).Some? && !FallsInWindow(s, acts[0])
                   && AvoidsWindow(Next(s, acts[0]).value, acts[1..]))
  }

  /** Over whole runs of the code as written: no step in the window, no stranded sleeper. */
  lemma {:induction false} NoWindowNoStranding(s: State, acts: seq<Action>)
    requires Inv(s) && !Stranded(s) && NonReentrant(acts) && AvoidsWindow(s, acts)
    ensures Run(s, acts).Some? && !Stranded(Run(s, acts).value)
    decreases |acts|
  {
    if acts != [] {
      assert !acts[0].Relock?;
      StepStrandsIff(s, acts[0]);
      NextKeepsInv(s, acts[0]);
      NoWindowNoStranding(Next(s, acts[0]).value, acts[1..]);
    }
  }

  lemma RunCons(s: State, a: Action, rest: seq<Action>)
    requires Next(s, a).Some?
    ensures Run(s, [a] + rest) == Run(Next(s, a).value, rest)
  {
    assert ([a] + rest)[1..] == rest;
  }

  lemma {:induction false} RunAppend(s: State, xs: seq<Action>, ys: seq<Action>)
    requires Run(s, xs).Some?
    ensures Run(s, xs + ys) == Run(Run(s, xs).value, ys)
    decreases |xs|
  {
    if xs == [] {
      assert xs + ys == ys;
    } else {
      assert (xs + ys)[1..] == xs[1..] + ys;
      RunAppend(Next(s, xs[0]).value, xs[1..], ys);
    }
  }

  // ---- a run of the code as written that strands a sleeper ----

  /** A state of two fibers with nothing scheduled and no waiter popped. */
  predicate Looks(s: State, mutex: Option<Fid>, guard: Option<Fid>, owner: nat, queue: seq<Fid>, pc1: Pc, pc2: Pc, d1: nat) {
    && s.fibers == {1, 2} && Known(s, 1) && Known(s, 2)
    && s.mutex == mutex && s.guard == guard && s.owner == owner && s.queue == queue
    && s.ready == {} && s.woken == {} && s.carrier == map[]
    && s.pc[1] == pc1 && s.pc[2] == pc2 && s.depth[1] == d1 && s.depth[2] == 0
  }

  function Repeat(a: Action, n: nat): seq<Action> {
    if n == 0 then [] else [a] + Repeat(a, n - 1)
  }

  lemma RunRepeat(s: State, a: Action, n: nat)
    requires n > 0 && Next(s, a).Some?
    ensures Run(s, Repeat(a, n)) == Run(Next(s, a).value, Repeat(a, n - 1))
  {
    RunCons(s, a, Repeat(a, n - 1));
  }

  /** Fiber 1 takes the free lock. */
  lemma FirstLocks(s: State)
    requires Looks(s, None, None, 0, [], Outside, Outside, 0)
    ensures Run(s, Repeat(Advance(1), 3)).Some?
    ensures Looks(Run(s, Repeat(Advance(1), 3)).value, Some(1), None, 1, [], Inside, Outside, 1)
  {
    var s1 := Next(s, Advance(1)).value;
    assert Looks(s1, None, None, 0, [], FirstTry, Outside, 0);
    var s2 := Next(s1, Advance(1)).value;
    assert Looks(s2, Some(1), None, 0, [], SetOwner, Outside, 0);
    RunRepeat(s, Advance(1), 3);
    RunRepeat(s1, Advance(1), 2);
    RunRepeat(s2, Advance(1), 1);
  }

  /** Fiber 1 unlocks up to the point where the guard is dropped but m_mutex is not. */
  lemma FirstOpensTheWindow(s: State)
    requires Looks(s, Some(1), None, 1, [], WantGuardToUnlock, Outside, 1)
    ensures Run(s, Repeat(Advance(1), 4)).Some?
    ensures Looks(Run(s, Repeat(Advance(1), 4)).value, Some(1), None, 0, [], ReleaseMutex(None), Outside, 1)
  {
    var s1 := Next(s, Advance(1)).value;
    assert Looks(s1, Some(1), Some(1), 1, [], ClearOwner, Outside, 1);
    var s2 := Next(s1, Advance(1)).value;
    assert Looks(s2, Some(1), Some(1), 0, [], PopWaiter, Outside, 1);
    var s3 := Next(s2, Advance(1)).value;
    assert Looks(s3, Some(1), Some(1), 0, [], DropGuard(None), Outside, 1);
    RunRepeat(s, Advance(1), 4);
    RunRepeat(s1, Advance(1), 3);
    RunRepeat(s2, Advance(1), 2);
    RunRepeat(s3, Advance(1), 1);
  }

  /** Meanwhile fiber 2 fails both tries. */
  lemma SecondFailsBothTries(s: State)
    requires Looks(s, Some(1), None, 0, [], ReleaseMutex(None), Outside, 1)
    ensures Run(s, Repeat(Advance(2), 4)).Some?
    ensures Looks(Run(s, Repeat(Advance(2), 4)).value, Some(1), Some(2), 0, [], ReleaseMutex(None), Enqueueing, 1)
  {
    var s1 := Next(s, Advance(2)).value;
    assert Looks(s1, Some(1), None, 0, [], ReleaseMutex(None), FirstTry, 1);
    var s2 := Next(s1, Advance(2)).value;
    assert Looks(s2, Some(1), None, 0, [], ReleaseMutex(None), WantGuard, 1);
    var s3 := Next(s2, Advance(2)).value;
    assert Looks(s3, Some(1), Some(2), 0, [], ReleaseMutex(None), SecondTry, 1);
    RunRepeat(s, Advance(2), 4);
    RunRepeat(s1, Advance(2), 3);
    RunRepeat(s2, Advance(2), 2);
    RunRepeat(s3, Advance(2), 1);
  }

  /** It queues itself and goes to sleep. */
  lemma SecondFallsAsleep(s: State)
    requires Looks(s, Some(1), Some(2), 0, [], ReleaseMutex(None), Enqueueing, 1)
    ensures Run(s, Repeat(Advance(2), 3)).Some?
    ensures Looks(Run(s, Repeat(Advance(2), 3)).value, Some(1), None, 0, [2], ReleaseMutex(None), Parked, 1)
  {
    var s1 := Next(s, Advance(2)).value;
    assert Looks(s1, Some(1), Some(2), 0, [2], ReleaseMutex(None), LeavingQueued, 1);
    var s2 := Next(s1, Advance(2)).value;
    assert Looks(s2, Some(1), None, 0, [2], ReleaseMutex(None), Yielding, 1);
    RunRepeat(s, Advance(2), 3);
    RunRepeat(s1, Advance(2), 2);
    RunRepeat(s2, Advance(2), 1);
  }

  /** Fiber 1 releases m_mutex with nobody to wake. */
  lemma FirstReleases(s: State)
    requires Looks(s, Some(1), None, 0, [2], ReleaseMutex(None), Parked, 1)
    ensures Run(s, Repeat(Advance(1), 2)).Some?
    ensures Looks(Run(s, Repeat(Advance(1), 2)).value, None, None, 0, [2], Outside, Parked, 0)
  {
    var s1 := Next(s, Advance(1)).value;
    assert Looks(s1, None, None, 0, [2], Wake(None), Parked, 1);
    RunRepeat(s, Advance(1), 2);
    RunRepeat(s1, Advance(1), 1);
  }

  function StrandingRun(): seq<Action> {
    Repeat(Advance(1), 3) + ([StartUnlock(1)] + (Repeat(Advance(1), 4)
    + (Repeat(Advance(2), 4) + (Repeat(Advance(2), 3) + Repeat(Advance(1), 2)))))
  }

  ghost predicate OnlyNewcomersMove(s: State, f: Fid) {
    forall a :: Next(s, a).Some? ==> a == Advance(f)
  }

  /** The code as written can leave fiber 2 asleep in the queue with the lock free and fiber 1 gone:
      only a newcomer calling lock() can take a step. */
  lemma AsWrittenCanStrand() returns (t: State)
    ensures Run(Init({1, 2}), StrandingRun()) == Some(t)
    ensures Stranded(t) && t.queue == [2] && OnlyNewcomersMove(t, 1)
  {
    var s := Init({1, 2});
    FirstLocks(s);
    RunAppend(s, Repeat(Advance(1), 3), [StartUnlock(1)] + (Repeat(Advance(1), 4)
      + (Repeat(Advance(2), 4) + (Repeat(Advance(2), 3) + Repeat(Advance(1), 2)))));
    var s1 := Run(s, Repeat(Advance(1), 3)).value;
    RunCons(s1, StartUnlock(1), Repeat(Advance(1), 4)
      + (Repeat(Advance(2), 4) + (Repeat(Advance(2), 3) + Repeat(Advance(1), 2))));
    var s2 := Next(s1, StartUnlock(1)).value;
    FirstOpensTheWindow(s2);
    RunAppend(s2, Repeat(Advance(1), 4), Repeat(Advance(2), 4) + (Repeat(Advance(2), 3) + Repeat(Advance(1), 2)));
    var s3 := Run(s2, Repeat(Advance(1), 4)).value;
    SecondFailsBothTries(s3);
    RunAppend(s3, Repeat(Advance(2), 4), Repeat(Advance(2), 3) + Repeat(Advance(1), 2));
    var s4 := Run(s3, Repeat(Advance(2), 4)).value;
    SecondFallsAsleep(s4);
    RunAppend(s4, Repeat(Advance(2), 3), Repeat(Advance(1), 2));
    var s5 := Run(s4, Repeat(Advance(2), 3)).value;
    FirstReleases(s5);
    t := Run(s5, Repeat(Advance(1), 2)).value;
    OnlyFirstMoves(t);
  }

  lemma OnlyFirstMoves(s: State)
    requires Looks(s, None, None, 0, [2], Outside, Parked, 0)
    ensures OnlyNewcomersMove(s, 1)
  {
  }

  // ---- re-entry ----

  /** lock() by the holder returns at once and counts nothing, so the matching inner unlock() already
      releases the lock: from any state where `f` is inside, one re-entry lets any outsider `g` in
      beside it. Together with MutualExclusion, exclusion needs exactly non-reentrant clients. */
  lemma ReentryBreaksExclusion(s: State, f: Fid, g: Fid) returns (t: State)
    requires Inv(s) && Known(s, f) && Known(s, g) && f != g
    requires s.pc[f] == Inside && s.pc[g] == Outside && s.guard.None?
    ensures Run(s, [Relock(f)] + ([UnlockAtOnce(f)] + Repeat(Advance(g), 3))) == Some(t)
    ensures Known(t, f) && Known(t, g) && t.pc[f] == Inside && t.pc[g] == Inside
  {
    assert LocksAgreeFor(s, f) && LocksAgreeFor(s, g);
    var s1 := Next(s, Relock(f)).value;
    var s2 := Next(s1, UnlockAtOnce(f)).value;
    RunCons(s, Relock(f), [UnlockAtOnce(f)] + Repeat(Advance(g), 3));
    RunCons(s1, UnlockAtOnce(f), Repeat(Advance(g), 3));
    t := OutsiderEnters(s2, f, g);
  }

  lemma OutsiderEnters(s: State, f: Fid, g: Fid) returns (t: State)
    requires Known(s, f) && Known(s, g) && f != g
    requires s.mutex.None? && s.owner == 0 && s.pc[g] == Outside
    ensures Run(s, Repeat(Advance(g), 3)) == Some(t)
    ensures Known(t, f) && Known(t, g) && t.pc[f] == s.pc[f] && t.pc[g] == Inside
  {
    var s1 := Next(s, Advance(g)).value;
    var s2 := Next(s1, Advance(g)).value;
    t := Next(s2, Advance(g)).value;
    RunRepeat(s, Advance(g), 3);
    RunRepeat(s1, Advance(g), 2);
    RunRepeat(s2, Advance(g), 1);
  }
}
