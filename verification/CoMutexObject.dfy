/**
  The fiber mutex as the object the source declares (acid/common/co_mutex.h), with lock() and unlock()
  executed undisturbed, and their agreement with the step system.
 */
module CoMutexObject {
  import opened Options
  import opened CoMutexSteps
  import opened CoMutexWakeups

  /** The shared words of the lock that survive between critical sections. */
  datatype Words = Words(locked: bool, owner: nat, queue: seq<Fid>)

  function WordsOf(s: State): Words {
    Words(s.mutex.Some?, s.owner, s.queue)
  }

  /** lock() by `f` up to its return or its first yield, nobody else running. */
  function LockWords(w: Words, f: Fid): Words {
    if w.owner == f then w
    else if w.locked then w.(queue := w.queue + [f])
    else w.(locked := true, owner := f)
  }

  predicate LockParks(w: Words, f: Fid) {
    w.owner != f && w.locked
  }

  function UnlockWords(w: Words): Words {
    Words(false, 0, if w.queue == [] then [] else w.queue[1..])
  }

  class CoMutex {
    var m_mutex: bool
    var m_fiber_id: nat
    var m_wait_queue: seq<Fid>

    ghost function View(): Words
      reads this
    {
      Words(m_mutex, m_fiber_id, m_wait_queue)
    }

    constructor ()
      ensures View() == Words(false, 0, [])
    {
      m_mutex, m_fiber_id, m_wait_queue := false, 0, [];
    }

    method TryLock() returns (ok: bool)
      modifies this`m_mutex
      ensures ok <==> !old(m_mutex)
      ensures m_mutex
    {
      ok := !m_mutex;
      m_mutex := true;
    }

    /** The critical section of lock() under m_guard: a last try, else the caller joins the queue. */
    method TryOrQueue(self: Fid) returns (taken: bool)
      modifies this
      ensures taken <==> !old(m_mutex)
      ensures View() == if taken then Words(true, self, old(m_wait_queue))
                        else old(View()).(queue := old(m_wait_queue) + [self])
    {
      taken := TryLock();
      if taken {
        m_fiber_id := self;
      } else {
        m_wait_queue := m_wait_queue + [self];
      }
    }

    /** Runs to the return of lock() or to its first yield. */
    method Lock(self: Fid) returns (parked: bool)
      modifies this
      ensures View() == LockWords(old(View()), self)
      ensures parked <==> LockParks(old(View()), self)
      ensures if parked then m_wait_queue == old(m_wait_queue) + [self] && m_fiber_id == old(m_fiber_id) && m_mutex
              else m_wait_queue == old(m_wait_queue) && m_fiber_id == self && (old(m_fiber_id) != self ==> m_mutex)
    {
      parked := false;
      if m_fiber_id == self {
        return;
      }
      var ok := TryLock();
      if ok {
        m_fiber_id := self;
      } else {
        var taken := TryOrQueue(self);
        parked := !taken;
      }
    }

    /** Returns the waiter to hand to the scheduler. */
    method Unlock() returns (fiber: Option<Fid>)
      modifies this
      ensures View() == UnlockWords(old(View()))
      ensures fiber == Front(old(m_wait_queue))
      ensures !m_mutex && m_fiber_id == 0
      ensures if old(m_wait_queue) == [] then fiber == None && m_wait_queue == []
              else fiber.Some? && [fiber.value] + m_wait_queue == old(m_wait_queue)
    {
      fiber := None;
      m_fiber_id := 0;
      if m_wait_queue != [] {
        fiber := Some(m_wait_queue[0]);
        m_wait_queue := m_wait_queue[1..];
      }
      m_mutex := false;
    }
  }

  /** The steps lock() takes when nobody interferes: at once, after the first try, or down to the yield. */
  function LockLength(s: State, f: Fid): nat {
    if s.owner == f then 1 else if s.mutex.None? then 3 else 7
  }

  /** Undisturbed, the steps of lock() do to the shared words what the method does, and leave the fiber
      inside or parked accordingly. */
  lemma UndisturbedLock(s: State, f: Fid) returns (t: State)
    requires Known(s, f) && s.pc[f] == Outside && s.guard.None?
    ensures Run(s, Repeat(Advance(f), LockLength(s, f))) == Some(t)
    ensures WordsOf(t) == LockWords(WordsOf(s), f)
    ensures Known(t, f) && t.pc[f] == (if LockParks(WordsOf(s), f) then Parked else Inside)
    ensures t.ready == s.ready && t.guard.None?
  {
    RunRepeat(s, Advance(f), LockLength(s, f));
    var s1 := Next(s, Advance(f)).value;
    if s.owner == f {
      t := s1;
    } else {
      RunRepeat(s1, Advance(f), LockLength(s, f) - 1);
      var s2 := Next(s1, Advance(f)).value;
      RunRepeat(s2, Advance(f), LockLength(s, f) - 2);
      var s3 := Next(s2, Advance(f)).value;
      if s.mutex.None? {
        t := s3;
      } else {
        t := UndisturbedQueueing(s3, f);
      }
    }
  }

  lemma UndisturbedQueueing(s: State, f: Fid) returns (t: State)
    requires Known(s, f) && s.pc[f] == SecondTry && s.mutex.Some?
    ensures Run(s, Repeat(Advance(f), 4)) == Some(t)
    ensures WordsOf(t) == WordsOf(s).(queue := s.queue + [f])
    ensures Known(t, f) && t.pc[f] == Parked && t.ready == s.ready && t.guard.None?
  {
    var s1 := Next(s, Advance(f)).value;
    var s2 := Next(s1, Advance(f)).value;
    var s3 := Next(s2, Advance(f)).value;
    t := Next(s3, Advance(f)).value;
    RunRepeat(s, Advance(f), 4);
    RunRepeat(s1, Advance(f), 3);
    RunRepeat(s2, Advance(f), 2);
    RunRepeat(s3, Advance(f), 1);
  }

  /** Undisturbed, the steps of unlock() are the single-step unlock, which does to the shared words what
      the method does and schedules the waiter the method returns. */
  lemma UndisturbedUnlock(s: State, f: Fid) returns (t: State)
    requires Known(s, f) && s.pc[f] == Inside && s.guard.None?
    ensures Run(s, [StartUnlock(f)] + Repeat(Advance(f), 6)) == Some(t)
    ensures Next(s, UnlockAtOnce(f)) == Some(t)
    ensures WordsOf(t) == UnlockWords(WordsOf(s))
    ensures t.ready == (if s.queue == [] then s.ready else s.ready + {s.queue[0]})
  {
    RunCons(s, StartUnlock(f), Repeat(Advance(f), 6));
    var s1 := Next(s, StartUnlock(f)).value;
    var s4 := UndisturbedPick(s1, f);
    t := UndisturbedRelease(s4, f);
    StepsAreAtOnce(s, f, s1, s4, t);
  }

  lemma StepsAreAtOnce(s: State, f: Fid, s1: State, s4: State, t: State)
    requires Known(s, f) && s.pc[f] == Inside && s.guard.None? && s1 == At(s, f, WantGuardToUnlock)
    requires s4 == Popped(At(s1, f, DropGuard(Front(s1.queue))), f).(guard := Some(f), owner := 0)
    requires Known(s4, f) && s4.pc[f].DropGuard?
    requires t == Left(Scheduled(s4.(guard := None, mutex := None), s4.pc[f].hand), f)
    ensures Next(s, UnlockAtOnce(f)) == Some(t)
    ensures WordsOf(t) == UnlockWords(WordsOf(s))
    ensures t.ready == (if s.queue == [] then s.ready else s.ready + {s.queue[0]})
  {
    var u := Next(s, UnlockAtOnce(f)).value;
    assert t.pc == s.pc[f := t.pc[f]] == u.pc;
  }

  /** The first half of unlock(): under the guard a waiter is picked. */
  lemma UndisturbedPick(s: State, f: Fid) returns (t: State)
    requires Known(s, f) && s.pc[f] == WantGuardToUnlock && s.guard.None?
    ensures Run(s, Repeat(Advance(f), 6)) == Run(t, Repeat(Advance(f), 3))
    ensures t == Popped(At(s, f, DropGuard(Front(s.queue))), f).(guard := Some(f), owner := 0)
  {
    RunRepeat(s, Advance(f), 6);
    var s2 := Next(s, Advance(f)).value;
    RunRepeat(s2, Advance(f), 5);
    var s3 := Next(s2, Advance(f)).value;
    RunRepeat(s3, Advance(f), 4);
    t := Next(s3, Advance(f)).value;
    assert t.pc == s.pc[f := t.pc[f]];
  }

  lemma UndisturbedRelease(s: State, f: Fid) returns (t: State)
    requires Known(s, f) && s.pc[f].DropGuard?
    ensures Run(s, Repeat(Advance(f), 3)) == Some(t)
    ensures t == Left(Scheduled(s.(guard := None, mutex := None), s.pc[f].hand), f)
  {
    var s1 := Next(s, Advance(f)).value;
    var s2 := Next(s1, Advance(f)).value;
    t := Next(s2, Advance(f)).value;
    RunRepeat(s, Advance(f), 3);
    RunRepeat(s1, Advance(f), 2);
    RunRepeat(s2, Advance(f), 1);
    assert t.pc == s.pc[f := t.pc[f]];
  }
}
