/**
  The fiber mutex (acid/common/co_mutex.cpp, lock / try_lock / unlock) as a step system.

  Every step is one indivisible action of one fiber: a test-and-set on the inner spinlock `m_mutex`,
  taking or dropping the spinlock `m_guard`, one access to the wait queue, one write of `m_fiber_id`,
  one `schedule`, one yield. Any fiber may take the next step, so a run is an arbitrary interleaving.
  Fiber ids start at 1; the owner field holds 0 when nobody owns the lock.
 */
module CoMutexSteps {
  import opened Options

  type Fid = f: nat | 0 < f witness 1

  /** Where a fiber stands inside lock() or unlock(). */
  datatype Pc =
    | Outside
    | FirstTry                              // the loop test: try_lock without the guard
    | WantGuard                             // about to take m_guard
    | SecondTry                             // try_lock once more, under the guard
    | Enqueueing                            // about to push itself on the wait queue, under the guard
    | LeavingQueued                         // queued, guard still held
    | Yielding                              // queued, guard dropped, still running
    | Parked                                // yielded
    | SetOwner                              // acquired without the guard
    | SetOwnerGuarded                       // acquired under the guard
    | LeavingOwned                          // owner recorded, guard still held
    | Inside                                // between lock() and unlock()
    | WantGuardToUnlock
    | ClearOwner
    | PopWaiter
    | DropGuard(hand: Option<Fid>)          // the waiter just popped, if any
    | ReleaseMutex(hand: Option<Fid>)
    | Wake(hand: Option<Fid>)

  datatype State = State(
    fibers: set<Fid>,
    mutex: Option<Fid>,    // m_mutex: who set it, if set
    guard: Option<Fid>,    // m_guard
    owner: nat,            // m_fiber_id
    queue: seq<Fid>,       // m_wait_queue
    ready: set<Fid>,       // fibers handed to the scheduler and not resumed yet
    woken: set<Fid>,       // fibers scheduled by an unlock that have neither acquired nor queued again
    carrier: map<Fid, Fid>,// waiter popped but not scheduled yet -> the fiber whose unlock() popped it
    pc: map<Fid, Pc>,
    depth: map<Fid, nat>)  // lock() returns minus unlock() returns, as the client counts them

  /** `UnlockAtOnce` is unlock() with nothing in between; `StartUnlock` opens it step by step.
      `Relock` is a lock() call by a fiber that already holds the lock. */
  datatype Action =
    | Advance(f: Fid)
    | Resume(f: Fid)
    | StartUnlock(f: Fid)
    | UnlockAtOnce(f: Fid)
    | Relock(f: Fid)

  function Init(fibers: set<Fid>): State {
    State(fibers, None, None, 0, [], {}, {}, map[], map f | f in fibers :: Outside, map f | f in fibers :: 0)
  }

  predicate Known(s: State, f: Fid) {
    f in s.fibers && f in s.pc && f in s.depth
  }

  function At(s: State, f: Fid, pc: Pc): State {
    s.(pc := s.pc[f := pc])
  }

  /** try_lock succeeds: the caller now holds m_mutex. */
  function Acquired(s: State, f: Fid, pc: Pc): State {
    At(s, f, pc).(mutex := Some(f), woken := s.woken - {f})
  }

  function Entered(s: State, f: Fid): State
    requires Known(s, f)
  {
    At(s, f, Inside).(depth := s.depth[f := s.depth[f] + 1])
  }

  function Left(s: State, f: Fid): State
    requires Known(s, f)
  {
    var d := if s.depth[f] == 0 then 0 else s.depth[f] - 1;
    At(s, f, if d == 0 then Outside else Inside).(depth := s.depth[f := d])
  }

  function Scheduled(s: State, hand: Option<Fid>): State {
    if hand.Some? then
      s.(ready := s.ready + {hand.value}, woken := s.woken + {hand.value}, carrier := s.carrier - {hand.value})
    else s
  }

  function Front(q: seq<Fid>): Option<Fid> {
    if q == [] then None else Some(q[0])
  }

  function Popped(s: State, f: Fid): State {
    if s.queue == [] then s else s.(queue := s.queue[1..], carrier := s.carrier[s.queue[0] := f])
  }

  /** One step of fiber `f` along lock(); None when it has to wait. */
  function LockStep(s: State, f: Fid): Option<State>
    requires Known(s, f)
  {
    match s.pc[f]
    case Outside =>
      if s.owner == f then Some(Entered(s, f)) else Some(At(s, f, FirstTry))
    case FirstTry =>
      if s.mutex.None? then Some(Acquired(s, f, SetOwner)) else Some(At(s, f, WantGuard))
    case WantGuard =>
      if s.guard.None? then Some(At(s, f, SecondTry).(guard := Some(f))) else None
    case SecondTry =>
      if s.mutex.None? then Some(Acquired(s, f, SetOwnerGuarded)) else Some(At(s, f, Enqueueing))
    case Enqueueing =>
      Some(At(s, f, LeavingQueued).(queue := s.queue + [f], woken := s.woken - {f}))
    case LeavingQueued => Some(At(s, f, Yielding).(guard := None))
    case Yielding => Some(At(s, f, Parked))
    case SetOwner => Some(Entered(s, f).(owner := f))
    case SetOwnerGuarded => Some(At(s, f, LeavingOwned).(owner := f))
    case LeavingOwned => Some(Entered(s, f).(guard := None))
    case _ => None
  }

  /** One step of fiber `f` along unlock(); None when it has to wait. */
  function UnlockStep(s: State, f: Fid): Option<State>
    requires Known(s, f)
  {
    match s.pc[f]
    case WantGuardToUnlock =>
      if s.guard.None? then Some(At(s, f, ClearOwner).(guard := Some(f))) else None
    case ClearOwner => Some(At(s, f, PopWaiter).(owner := 0))
    case PopWaiter => Some(Popped(At(s, f, DropGuard(Front(s.queue))), f))
    case DropGuard(hand) => Some(At(s, f, ReleaseMutex(hand)).(guard := None))
    case ReleaseMutex(hand) => Some(At(s, f, Wake(hand)).(mutex := None))
    case Wake(hand) => Some(Left(Scheduled(s, hand), f))
    case _ => None
  }

  predicate Unlocking(pc: Pc) {
    pc.WantGuardToUnlock? || pc.ClearOwner? || pc.PopWaiter? || pc.DropGuard? || pc.ReleaseMutex? || pc.Wake?
  }

  function Next(s: State, a: Action): Option<State> {
    if !Known(s, a.f) then None
    else match a
      case Advance(f) => if Unlocking(s.pc[f]) then UnlockStep(s, f) else LockStep(s, f)
      case Resume(f) =>
        if s.pc[f] == Parked && f in s.ready then Some(At(s, f, FirstTry).(ready := s.ready - {f})) else None
      case StartUnlock(f) =>
        if s.pc[f] == Inside then Some(At(s, f, WantGuardToUnlock)) else None
      case UnlockAtOnce(f) =>
        if s.pc[f] == Inside && s.guard.None? then
          Some(Left(Scheduled(Popped(s, f), Front(s.queue)).(owner := 0, mutex := None), f))
        else None
      case Relock(f) =>
        if s.pc[f] == Inside && s.owner == f then Some(s.(depth := s.depth[f := s.depth[f] + 1])) else None
  }

  /** The state after a run of actions, None if one of them was not possible. */
  function Run(s: State, acts: seq<Action>): Option<State>
    decreases |acts|
  {
    if acts == [] then Some(s)
    else match Next(s, acts[0])
      case None => None
      case Some(s1) => Run(s1, acts[1..])
  }

  // ---- the invariant ----

  /** The fiber set m_mutex and has not released it. */
  predicate Holds(pc: Pc) {
    pc.SetOwner? || pc.SetOwnerGuarded? || pc.LeavingOwned? || pc.Inside? || pc.WantGuardToUnlock?
    || pc.ClearOwner? || pc.PopWaiter? || pc.DropGuard? || pc.ReleaseMutex?
  }

  predicate HoldsGuard(pc: Pc) {
    pc.SecondTry? || pc.Enqueueing? || pc.LeavingQueued? || pc.SetOwnerGuarded? || pc.LeavingOwned?
    || pc.ClearOwner? || pc.PopWaiter? || pc.DropGuard?
  }

  predicate Owns(pc: Pc) {
    pc.LeavingOwned? || pc.Inside? || pc.WantGuardToUnlock? || pc.ClearOwner?
  }

  predicate Counted(pc: Pc) {
    pc.Inside? || pc.WantGuardToUnlock? || pc.ClearOwner? || pc.PopWaiter? || pc.DropGuard?
    || pc.ReleaseMutex? || pc.Wake?
  }

  predicate Waiting(pc: Pc) {
    pc.LeavingQueued? || pc.Yielding? || pc.Parked?
  }

  /** The waiter that fiber `g` popped and has yet to schedule. */
  function Hand(pc: Pc): Option<Fid> {
    if pc.DropGuard? || pc.ReleaseMutex? || pc.Wake? then pc.hand else None
  }

  predicate Distinct(q: seq<Fid>) {
    forall i, j :: 0 <= i < j < |q| ==> q[i] != q[j]
  }

  predicate QueueOf(q: seq<Fid>, fibers: set<Fid>) {
    Distinct(q) && forall i :: 0 <= i < |q| ==> q[i] in fibers
  }

  /** What one fiber's position says about the two spinlocks and its nesting count. */
  predicate LocksAgreeFor(s: State, f: Fid) {
    && Known(s, f)
    && (Holds(s.pc[f]) <==> s.mutex == Some(f))
    && (HoldsGuard(s.pc[f]) <==> s.guard == Some(f))
    && s.depth[f] == (if Counted(s.pc[f]) then 1 else 0)
    && (Owns(s.pc[f]) <==> s.owner == f)
  }

  /** A waiter is in exactly one place: queued, popped by an unlocker, or handed to the scheduler. */
  predicate PlacedFor(s: State, f: Fid) {
    && f in s.fibers && f in s.pc
    && (Waiting(s.pc[f]) <==> f in s.queue || f in s.ready || f in s.carrier)
    && !(f in s.queue && f in s.ready) && !(f in s.queue && f in s.carrier) && !(f in s.ready && f in s.carrier)
    && (s.pc[f].LeavingQueued? ==> f in s.queue)
    && (f in s.carrier ==> s.carrier[f] in s.fibers && s.carrier[f] in s.pc && Hand(s.pc[s.carrier[f]]) == Some(f))
    && (Hand(s.pc[f]).Some? ==> Hand(s.pc[f]).value in s.carrier && s.carrier[Hand(s.pc[f]).value] == f)
  }

  /** Everything the shared words mention is a known fiber, and the queue holds nobody twice. */
  ghost predicate Framed(s: State) {
    && (s.mutex.Some? ==> s.mutex.value in s.fibers)
    && (s.guard.Some? ==> s.guard.value in s.fibers)
    && (s.owner != 0 ==> s.owner in s.fibers)
    && QueueOf(s.queue, s.fibers)
    && (forall f :: f in s.ready ==> f in s.fibers)
    && (forall f :: f in s.carrier ==> f in s.fibers)
  }

  ghost predicate Inv(s: State) {
    Framed(s) && forall f :: f in s.fibers ==> LocksAgreeFor(s, f) && PlacedFor(s, f)
  }

  predicate NonReentrant(acts: seq<Action>) {
    forall i :: 0 <= i < |acts| ==> !acts[i].Relock?
  }

  lemma InitInv(fibers: set<Fid>)
    ensures Inv(Init(fibers))
  {
  }

  lemma LockStepKeepsOwnLocks(s: State, f: Fid)
    requires LocksAgreeFor(s, f) && LockStep(s, f).Some?
    ensures LocksAgreeFor(LockStep(s, f).value, f)
  {
    if Trying(s.pc[f]) {
      TryKeepsOwnLocks(s, f);
    } else {
      TriedKeepsOwnLocks(s, f);
    }
  }

  predicate Trying(pc: Pc) {
    pc.Outside? || pc.FirstTry? || pc.WantGuard? || pc.SecondTry?
  }

  lemma TryKeepsOwnLocks(s: State, f: Fid)
    requires LocksAgreeFor(s, f) && LockStep(s, f).Some? && Trying(s.pc[f])
    ensures LocksAgreeFor(LockStep(s, f).value, f)
  {
  }

  lemma TriedKeepsOwnLocks(s: State, f: Fid)
    requires LocksAgreeFor(s, f) && LockStep(s, f).Some? && !Trying(s.pc[f])
    ensures LocksAgreeFor(LockStep(s, f).value, f)
  {
  }

  lemma LockStepKeepsOtherLocks(s: State, f: Fid, g: Fid)
    requires g != f && LocksAgreeFor(s, f) && LocksAgreeFor(s, g) && LockStep(s, f).Some?
    ensures LocksAgreeFor(LockStep(s, f).value, g)
  {
  }

  lemma LockStepKeepsOwnPlace(s: State, f: Fid)
    requires Known(s, f) && PlacedFor(s, f) && LockStep(s, f).Some?
    ensures PlacedFor(LockStep(s, f).value, f)
  {
  }

  lemma LockStepKeepsOtherPlace(s: State, f: Fid, g: Fid)
    requires Known(s, f) && g != f && PlacedFor(s, f) && PlacedFor(s, g) && LockStep(s, f).Some?
    ensures PlacedFor(LockStep(s, f).value, g)
  {
    assert g in s.queue + [f] <==> g in s.queue;
  }

  lemma UnlockStepKeepsLocks(s: State, f: Fid, g: Fid)
    requires LocksAgreeFor(s, f) && LocksAgreeFor(s, g) && UnlockStep(s, f).Some?
    ensures LocksAgreeFor(UnlockStep(s, f).value, g)
  {
  }

  lemma UnlockStepKeepsPlace(s: State, f: Fid, g: Fid)
    requires LocksAgreeFor(s, f) && UnlockStep(s, f).Some? && Distinct(s.queue)
    requires PlacedFor(s, f) && PlacedFor(s, g)
    requires s.queue != [] ==> LocksAgreeFor(s, s.queue[0]) && PlacedFor(s, s.queue[0])
    ensures PlacedFor(UnlockStep(s, f).value, g)
  {
  }

  lemma WholeStepKeeps(s: State, a: Action, g: Fid)
    requires !a.Relock? && !a.Advance? && Next(s, a).Some? && Distinct(s.queue)
    requires LocksAgreeFor(s, a.f) && PlacedFor(s, a.f)
    requires LocksAgreeFor(s, g) && PlacedFor(s, g)
    requires s.queue != [] ==> LocksAgreeFor(s, s.queue[0]) && PlacedFor(s, s.queue[0])
    ensures LocksAgreeFor(Next(s, a).value, g) && PlacedFor(Next(s, a).value, g)
  {
  }

  lemma PushKeepsQueue(q: seq<Fid>, f: Fid, fibers: set<Fid>)
    requires QueueOf(q, fibers) && f in fibers && f !in q
    ensures QueueOf(q + [f], fibers)
  {
  }

  lemma PopKeepsQueue(q: seq<Fid>, fibers: set<Fid>)
    requires QueueOf(q, fibers) && q != []
    ensures QueueOf(q[1..], fibers) && q[0] in fibers
  {
  }

  /** What a step of lock() can do to the shared words. */
  lemma LockStepTouches(s: State, f: Fid)
    requires Known(s, f) && LockStep(s, f).Some?
    ensures var t := LockStep(s, f).value;
      && t.fibers == s.fibers && t.ready == s.ready && t.carrier == s.carrier
      && (t.mutex == s.mutex || (s.mutex.None? && t.mutex == Some(f)))
      && (t.guard == s.guard || t.guard.None? || (s.guard.None? && t.guard == Some(f)))
      && (t.owner == s.owner || t.owner == f)
      && t.queue == (if s.pc[f].Enqueueing? then s.queue + [f] else s.queue)
  {
  }

  lemma LockStepKeepsFrame(s: State, f: Fid)
    requires Framed(s) && Known(s, f) && PlacedFor(s, f) && LockStep(s, f).Some?
    ensures Framed(LockStep(s, f).value)
  {
    LockStepTouches(s, f);
    if s.pc[f].Enqueueing? {
      PushKeepsQueue(s.queue, f, s.fibers);
    }
  }

  lemma UnlockStepKeepsFrame(s: State, f: Fid)
    requires Framed(s) && Known(s, f) && UnlockStep(s, f).Some?
    requires Hand(s.pc[f]).Some? ==> Hand(s.pc[f]).value in s.fibers
    ensures Framed(UnlockStep(s, f).value)
  {
    var t := UnlockStep(s, f).value;
    if s.pc[f].PopWaiter? && s.queue != [] {
      PopKeepsQueue(s.queue, s.fibers);
    } else {
      assert t.queue == s.queue;
    }
  }

  lemma NextKeepsFrame(s: State, a: Action)
    requires Inv(s) && !a.Relock? && Next(s, a).Some?
    ensures Framed(Next(s, a).value)
  {
    assert PlacedFor(s, a.f);
    if a.Advance? {
      if Unlocking(s.pc[a.f]) {
        UnlockStepKeepsFrame(s, a.f);
      } else {
        LockStepKeepsFrame(s, a.f);
      }
    }
  }

  lemma NextKeepsFor(s: State, a: Action, g: Fid)
    requires Inv(s) && !a.Relock? && Next(s, a).Some? && g in s.fibers
    ensures LocksAgreeFor(Next(s, a).value, g) && PlacedFor(Next(s, a).value, g)
  {
    var f := a.f;
    assert LocksAgreeFor(s, f) && PlacedFor(s, f) && LocksAgreeFor(s, g) && PlacedFor(s, g);
    assert s.queue != [] ==> LocksAgreeFor(s, s.queue[0]) && PlacedFor(s, s.queue[0]);
    if !a.Advance? {
      WholeStepKeeps(s, a, g);
    } else if Unlocking(s.pc[f]) {
      UnlockStepKeepsLocks(s, f, g);
      UnlockStepKeepsPlace(s, f, g);
    } else if g == f {
      LockStepKeepsOwnLocks(s, f);
      LockStepKeepsOwnPlace(s, f);
    } else {
      LockStepKeepsOtherLocks(s, f, g);
      LockStepKeepsOtherPlace(s, f, g);
    }
  }

  lemma NextKeepsInv(s: State, a: Action)
    requires Inv(s) && !a.Relock? && Next(s, a).Some?
    ensures Inv(Next(s, a).value)
  {
    NextKeepsFrame(s, a);
    NextKeepsFibers(s, a);
    forall g | g in s.fibers
      ensures LocksAgreeFor(Next(s, a).value, g) && PlacedFor(Next(s, a).value, g)
    {
      NextKeepsFor(s, a, g);
    }
  }

  lemma NextKeepsFibers(s: State, a: Action)
    requires Next(s, a).Some?
    ensures Next(s, a).value.fibers == s.fibers
  {
  }

  /** Whatever the interleaving, a run of non-reentrant clients stays inside the invariant. */
  lemma {:induction false} RunKeepsInv(s: State, acts: seq<Action>)
    requires Inv(s) && NonReentrant(acts) && Run(s, acts).Some?
    ensures Inv(Run(s, acts).value)
    decreases |acts|
  {
    if acts != [] {
      assert !acts[0].Relock?;
      NextKeepsInv(s, acts[0]);
      RunKeepsInv(Next(s, acts[0]).value, acts[1..]);
    }
  }

  // ---- what the lock promises ----

  /** Mutual exclusion: in any interleaving of non-reentrant clients at most one fiber is between
      lock() and unlock(), and m_fiber_id is 0 or that fiber. */
  lemma MutualExclusion(fibers: set<Fid>, acts: seq<Action>, f: Fid, g: Fid)
    requires NonReentrant(acts) && Run(Init(fibers), acts).Some?
    ensures var t := Run(Init(fibers), acts).value;
      && (Known(t, f) && Known(t, g) && Holds(t.pc[f]) && Holds(t.pc[g]) ==> f == g)
      && (Known(t, f) && t.pc[f].Inside? ==> t.owner == f && t.mutex == Some(f))
      && (t.owner != 0 ==> Known(t, t.owner) && Holds(t.pc[t.owner]))
  {
    InitInv(fibers);
    RunKeepsInv(Init(fibers), acts);
    var t := Run(Init(fibers), acts).value;
    assert Known(t, f) ==> LocksAgreeFor(t, f);
    assert Known(t, g) ==> LocksAgreeFor(t, g);
    if t.owner != 0 {
      assert LocksAgreeFor(t, t.owner);
    }
  }

  /** No fiber is queued twice and no sleeper is forgotten: every fiber that queued itself is in the
      wait queue, in the hand of one unlocker about to schedule it, or with the scheduler; never in two. */
  lemma WaiterInOnePlace(fibers: set<Fid>, acts: seq<Action>, f: Fid)
    requires NonReentrant(acts) && Run(Init(fibers), acts).Some?
    ensures var t := Run(Init(fibers), acts).value;
      && Distinct(t.queue)
      && (Known(t, f) && Waiting(t.pc[f]) ==>
            || (f in t.queue && f !in t.ready && f !in t.carrier)
            || (f !in t.queue && f in t.ready && f !in t.carrier)
            || (f !in t.queue && f !in t.ready && f in t.carrier
                && Known(t, t.carrier[f]) && Hand(t.pc[t.carrier[f]]) == Some(f)))
  {
    InitInv(fibers);
    RunKeepsInv(Init(fibers), acts);
    var t := Run(Init(fibers), acts).value;
    if Known(t, f) && Waiting(t.pc[f]) {
      assert PlacedFor(t, f);
      if f in t.carrier {
        assert LocksAgreeFor(t, t.carrier[f]);
      }
    }
  }
}
