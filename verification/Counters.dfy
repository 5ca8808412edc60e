/**
  The counting semaphore and the count-down latch of fibers (acid/common/co_mutex.cpp lines 128-176).
  Each critical section under the object's fiber mutex is one step.
 */
module Counters {
  import opened CoMutexSteps
  import opened Conditions
  import opened Options

  // ---- CoSemaphore ----

  datatype Sem = Sem(
    num: nat,
    used: nat,
    cond: Cond,
    taken: nat,       // history: wait() calls that returned
    returned: nat)    // history: notify() calls that found a permit in use

  datatype SemMove = SemWait(f: Fid) | SemAgain(f: Fid) | SemNotify

  function NewSem(num: nat): Sem {
    Sem(num, 0, NoOne, 0, 0)
  }

  function SemBody(s: Sem, f: Fid): Sem {
    if s.used >= s.num then s.(cond := Waited(s.cond, f)) else s.(used := s.used + 1, taken := s.taken + 1)
  }

  predicate SemEnabled(s: Sem, m: SemMove) {
    match m
    case SemWait(f) => Idle(s.cond, f)
    case SemAgain(f) => f in s.cond.signalled
    case SemNotify => true
  }

  function SemStep(s: Sem, m: SemMove): Sem
    requires SemEnabled(s, m)
  {
    match m
    case SemWait(f) => SemBody(s, f)
    case SemAgain(f) => SemBody(s.(cond := Relocked(s.cond, f)), f)
    case SemNotify =>
      var s1 := if s.used > 0 then s.(used := s.used - 1, returned := s.returned + 1) else s;
      s1.(cond := Notified(s1.cond))
  }

  function SemRun(s: Sem, moves: seq<SemMove>): Sem
    decreases |moves|
  {
    if moves == [] || !SemEnabled(s, moves[0]) then s else SemRun(SemStep(s, moves[0]), moves[1..])
  }

  predicate SemInv(s: Sem) {
    && CondOk(s.cond)
    && s.used <= s.num
    && s.taken == s.returned + s.used
    && (s.cond.waiting != [] ==> s.num - s.used <= |s.cond.signalled|)
  }

  lemma SemStepKeepsInv(s: Sem, m: SemMove)
    requires SemInv(s) && SemEnabled(s, m)
    ensures SemInv(SemStep(s, m))
  {
    NotifiedOk(s.cond);
    if m.SemAgain? { RelockedOk(s.cond, m.f); }
    if !m.SemNotify? { WaitedOk(if m.SemAgain? then Relocked(s.cond, m.f) else s.cond, m.f); }
  }

  lemma {:induction false} SemRunKeepsInv(s: Sem, moves: seq<SemMove>)
    requires SemInv(s)
    ensures SemInv(SemRun(s, moves)) && SemRun(s, moves).num == s.num
    decreases |moves|
  {
    if moves != [] && SemEnabled(s, moves[0]) {
      SemStepKeepsInv(s, moves[0]);
      SemRunKeepsInv(SemStep(s, moves[0]), moves[1..]);
    }
  }

  /** In every interleaving at most `num` more wait() calls have returned than permits were given back,
      and no sleeper is forgotten: each free permit has a signalled fiber to take it, so when nobody is
      signalled fibers sleep only while all permits are in use. */
  lemma SemaphoreSafe(num: nat, moves: seq<SemMove>)
    ensures var s := SemRun(NewSem(num), moves);
      && s.taken - s.returned == s.used <= num
      && (s.cond.waiting != [] ==> num - s.used <= |s.cond.signalled|)
      && (s.cond.waiting != [] && s.cond.signalled == {} ==> s.used == num)
  {
    SemRunKeepsInv(NewSem(num), moves);
  }

  /** A notify() of a semaphore in use gives a permit back and wakes the longest waiter, who then gets through. */
  lemma NotifyLetsOneThrough(s: Sem)
    requires SemInv(s) && s.used > 0
    ensures var t := SemStep(s, SemNotify);
      && t.used == s.used - 1 && t.num == s.num && t.returned == s.returned + 1 && t.taken == s.taken
      && (s.cond.waiting != [] ==>
        var f := s.cond.waiting[0];
        && t.cond.waiting == s.cond.waiting[1..] && SemEnabled(t, SemAgain(f))
        && var u := SemStep(t, SemAgain(f));
        u.taken == s.taken + 1 && u.used == s.used && Idle(u.cond, f))
  {
    NotifiedOk(s.cond);
  }

  /** A wait() gets through at once exactly if a permit is free, and is otherwise last in the queue. */
  lemma WaitTakesOrSleeps(s: Sem, f: Fid)
    requires SemInv(s) && SemEnabled(s, SemWait(f))
    ensures var t := SemStep(s, SemWait(f));
      if s.used < s.num then t.taken == s.taken + 1 && t.used == s.used + 1 && t.cond == s.cond
      else t.taken == s.taken && t.used == s.used && t.cond.waiting == s.cond.waiting + [f] && t.cond.timer
  {
  }

  // ---- CoCountDownLatch ----

  datatype Latch = Latch(
    count: int,
    cond: Cond,
    passed: nat,        // history: wait() calls that returned
    counted: nat)       // history: count_down() calls that returned true

  datatype LatchMove = LatchWait(f: Fid) | LatchAgain(f: Fid) | CountDown

  function NewLatch(count: int): Latch {
    Latch(count, NoOne, 0, 0)
  }

  predicate LatchEnabled(l: Latch, m: LatchMove) {
    match m
    case LatchWait(f) => Idle(l.cond, f)
    case LatchAgain(f) => f in l.cond.signalled
    case CountDown => true
  }

  /** wait() sleeps once and does not look at the count again after its wake-up. */
  function LatchStep(l: Latch, m: LatchMove): Latch
    requires LatchEnabled(l, m)
  {
    match m
    case LatchWait(f) =>
      if l.count == 0 then l.(passed := l.passed + 1) else l.(cond := Waited(l.cond, f))
    case LatchAgain(f) => l.(cond := Relocked(l.cond, f), passed := l.passed + 1)
    case CountDown =>
      if l.count == 0 then l
      else
        var l1 := l.(count := l.count - 1, counted := l.counted + 1);
        if l1.count == 0 then l1.(cond := NotifiedAll(l1.cond)) else l1
  }

  function LatchRun(l: Latch, moves: seq<LatchMove>): Latch
    decreases |moves|
  {
    if moves == [] || !LatchEnabled(l, moves[0]) then l else LatchRun(LatchStep(l, moves[0]), moves[1..])
  }

  /** Fibers sleep only above zero, and are released (or pass) only at zero. */
  predicate LatchInv(l: Latch, count: int) {
    && l.count == count - l.counted
    && (l.count == 0 ==> l.cond.waiting == [])
    && (l.count != 0 ==> l.cond.signalled == {} && l.passed == 0)
  }

  lemma {:induction false} LatchRunKeepsInv(l: Latch, moves: seq<LatchMove>, count: int)
    requires LatchInv(l, count)
    ensures LatchInv(LatchRun(l, moves), count)
    decreases |moves|
  {
    if moves != [] && LatchEnabled(l, moves[0]) {
      LatchRunKeepsInv(LatchStep(l, moves[0]), moves[1..], count);
    }
  }

  /** No wait() returns before the count is zero, although wait() does not re-test it; at zero nobody is
      left asleep; and exactly `count` calls of count_down() report true by then. */
  lemma LatchOpensAtZero(count: int, moves: seq<LatchMove>)
    ensures var l := LatchRun(NewLatch(count), moves);
      && (l.passed > 0 ==> l.count == 0)
      && (l.count == 0 ==> l.cond.waiting == [] && l.counted == count)
      && (l.count != 0 ==> l.cond.signalled == {})
  {
    LatchRunKeepsInv(NewLatch(count), moves, count);
  }

  /** The calls of count_down() among the moves made. */
  function CountDowns(l: Latch, moves: seq<LatchMove>): nat
    decreases |moves|
  {
    if moves == [] || !LatchEnabled(l, moves[0]) then 0
    else (if moves[0].CountDown? then 1 else 0) + CountDowns(LatchStep(l, moves[0]), moves[1..])
  }

  /** Every call of count_down() counts, down to zero and no further. */
  lemma {:induction false} EveryCallCounts(l: Latch, moves: seq<LatchMove>)
    requires l.count >= 0
    ensures LatchRun(l, moves).count
         == if CountDowns(l, moves) <= l.count then l.count - CountDowns(l, moves) else 0
    decreases |moves|
  {
    if moves != [] && LatchEnabled(l, moves[0]) {
      EveryCallCounts(LatchStep(l, moves[0]), moves[1..]);
    }
  }

  /** The call that counts down to zero hands every sleeper to the scheduler, and each then gets through. */
  lemma LastCountReleasesAll(l: Latch, f: Fid)
    requires l.count == 1 && f in l.cond.waiting
    ensures var t := LatchStep(l, LatchMove.CountDown);
      && t.count == 0 && t.cond.waiting == [] && LatchEnabled(t, LatchAgain(f))
      && LatchStep(t, LatchAgain(f)).passed == l.passed + 1
      && Idle(LatchStep(t, LatchAgain(f)).cond, f)
  {
  }

  // ---- the objects ----

  class CoSemaphore {
    const m_num: nat
    var m_used: nat
    const m_cond: CoCond
    ghost var taken: nat
    ghost var returned: nat

    ghost function View(): Sem
      reads this, m_cond
    {
      Sem(m_num, m_used, m_cond.View(), taken, returned)
    }

    constructor (num: nat)
      ensures fresh(m_cond) && View() == NewSem(num)
    {
      m_num, m_used := num, 0;
      m_cond := new CoCond();
      taken, returned := 0, 0;
    }

    /** From the loop test of wait() to its return (true) or its next sleep (false). */
    method TryTake(self: Fid) returns (got: bool)
      modifies this, m_cond
      ensures View() == SemBody(old(View()), self)
      ensures got <==> old(m_used) < m_num
      ensures if got then m_used == old(m_used) + 1 && m_cond.m_wait_queue == old(m_cond.m_wait_queue)
              else m_used == old(m_used) && m_cond.m_wait_queue == old(m_cond.m_wait_queue) + [self]
    {
      if m_used >= m_num {
        m_cond.Wait(self);
        return false;
      }
      m_used := m_used + 1;
      taken := taken + 1;
      return true;
    }

    /** The fiber handed to the scheduler, if any. */
    method Notify() returns (fiber: Option<Fid>)
      modifies this, m_cond
      ensures View() == SemStep(old(View()), SemNotify)
      ensures m_used == if old(m_used) > 0 then old(m_used) - 1 else 0
      ensures if old(m_cond.m_wait_queue) == [] then fiber == None && m_cond.m_wait_queue == []
              else fiber.Some? && [fiber.value] + m_cond.m_wait_queue == old(m_cond.m_wait_queue)
    {
      if m_used > 0 {
        m_used := m_used - 1;
        returned := returned + 1;
      }
      fiber := m_cond.Notify();
    }
  }

  class CoCountDownLatch {
    var m_count: int
    const m_cond: CoCond
    ghost var passed: nat
    ghost var counted: nat

    ghost function View(): Latch
      reads this, m_cond
    {
      Latch(m_count, m_cond.View(), passed, counted)
    }

    constructor (count: int)
      ensures fresh(m_cond) && View() == NewLatch(count)
    {
      m_count := count;
      m_cond := new CoCond();
      passed, counted := 0, 0;
    }

    /** wait() up to its return (true) or its sleep (false). */
    method Wait(self: Fid) returns (through: bool)
      requires LatchEnabled(View(), LatchWait(self))
      modifies this, m_cond
      ensures View() == LatchStep(old(View()), LatchWait(self))
      ensures through <==> old(m_count) == 0
      ensures m_count == old(m_count)
      ensures m_cond.m_wait_queue == old(m_cond.m_wait_queue) + if through then [] else [self]
    {
      if m_count == 0 {
        passed := passed + 1;
        return true;
      }
      m_cond.Wait(self);
      return false;
    }

    /** Whether it counted, and the fibers handed to the scheduler. */
    method CountDown() returns (ok: bool, fibers: seq<Fid>)
      modifies this, m_cond
      ensures View() == LatchStep(old(View()), LatchMove.CountDown)
      ensures ok <==> old(m_count) != 0
      ensures m_count == if ok then old(m_count) - 1 else 0
      ensures fibers == if old(m_count) == 1 then old(m_cond.m_wait_queue) else []
      ensures fibers + m_cond.m_wait_queue == old(m_cond.m_wait_queue)
    {
      fibers := [];
      if m_count == 0 {
        return false, [];
      }
      m_count := m_count - 1;
      counted := counted + 1;
      if m_count == 0 {
        fibers := m_cond.NotifyAll();
      }
      ok := true;
    }
  }
}
