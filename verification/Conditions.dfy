/**
  The fiber condition variable (acid/common/co_mutex.cpp, CoCond).

  Callers hold the fiber mutex of their data structure around notify(), notify_all() and wait(lock), so
  one call is one step. `signalled` holds the fibers that a notification handed to the scheduler and that
  have not retaken the mutex yet.
 */
module Conditions {
  import opened CoMutexSteps
  import opened Options

  datatype Cond = Cond(waiting: seq<Fid>, signalled: set<Fid>, timer: bool)

  const NoOne := Cond([], {}, false)

  /** wait(lock) up to the yield: join the queue, arm the keep-alive timer if there is none. */
  function Waited(c: Cond, f: Fid): Cond {
    Cond(c.waiting + [f], c.signalled, true)
  }

  function Notified(c: Cond): Cond {
    if c.waiting == [] then c else Cond(c.waiting[1..], c.signalled + {c.waiting[0]}, false)
  }

  function Members(q: seq<Fid>): set<Fid> {
    set f | f in q
  }

  function NotifiedAll(c: Cond): Cond {
    Cond([], c.signalled + Members(c.waiting), false)
  }

  /** The second half of wait(lock): a signalled fiber has the mutex again. */
  function Relocked(c: Cond, f: Fid): Cond {
    c.(signalled := c.signalled - {f})
  }

  predicate Idle(c: Cond, f: Fid) {
    f !in c.waiting && f !in c.signalled
  }

  /** Nobody waits twice, and nobody waits and is signalled at once. */
  predicate CondOk(c: Cond) {
    && Distinct(c.waiting)
    && (forall i :: 0 <= i < |c.waiting| ==> c.waiting[i] !in c.signalled)
    && (c.timer ==> c.waiting != [])
  }

  lemma WaitedOk(c: Cond, f: Fid)
    requires CondOk(c) && Idle(c, f)
    ensures CondOk(Waited(c, f))
  {
  }

  lemma NotifiedOk(c: Cond)
    requires CondOk(c)
    ensures CondOk(Notified(c))
    ensures |Notified(c).signalled| == |c.signalled| + (if c.waiting == [] then 0 else 1)
  {
  }

  lemma RelockedOk(c: Cond, f: Fid)
    requires CondOk(c) && f in c.signalled
    ensures CondOk(Relocked(c, f)) && Idle(Relocked(c, f), f)
    ensures |Relocked(c, f).signalled| == |c.signalled| - 1
  {
  }

  /** The keep-alive timer is there to stop the scheduler from exiting while a fiber waits. */
  predicate KeptAlive(c: Cond) {
    c.waiting != [] ==> c.timer
  }

  /** A wait leaves the timer armed, whatever was there before, and the fiber last in the queue. */
  lemma WaitKeepsAlive(c: Cond, f: Fid)
    ensures KeptAlive(Waited(c, f)) && Waited(c, f).timer
    ensures Waited(c, f).waiting == c.waiting + [f] && Waited(c, f).signalled == c.signalled
  {
  }

  /** notify() drops the timer whether or not fibers are left waiting, so it keeps the promise exactly
      when it takes the last waiter (or finds none). */
  lemma NotifyKeepsAliveIff(c: Cond)
    requires CondOk(c) && KeptAlive(c)
    ensures KeptAlive(Notified(c)) <==> |c.waiting| <= 1
  {
  }

  /** Two waiters and one notify(): a fiber waits with no timer. */
  lemma NotifyDropsTimer(f: Fid, g: Fid)
    requires f != g
    ensures var c := Notified(Waited(Waited(NoOne, f), g)); CondOk(c) && c.waiting == [g] && !KeptAlive(c)
  {
    assert Waited(Waited(NoOne, f), g).waiting == [f, g];
  }

  // ---- whole runs ----

  datatype CondStep = Join(f: Fid) | NotifyOne | NotifyEach | Return(f: Fid)

  /** A fiber joins that is not in wait() already, and returns once it was signalled. */
  function CondNext(c: Cond, a: CondStep): Option<Cond> {
    match a
    case Join(f) => if Idle(c, f) then Some(Waited(c, f)) else None
    case NotifyOne => Some(Notified(c))
    case NotifyEach => Some(NotifiedAll(c))
    case Return(f) => if f in c.signalled then Some(Relocked(c, f)) else None
  }

  function CondRun(c: Cond, steps: seq<CondStep>): Option<Cond>
    decreases |steps|
  {
    if steps == [] then Some(c)
    else match CondNext(c, steps[0])
      case None => None
      case Some(d) => CondRun(d, steps[1..])
  }

  function JoinedBy(a: CondStep): seq<Fid> {
    if a.Join? then [a.f] else []
  }

  /** The fibers a step hands to the scheduler, in order. */
  function HandedBy(c: Cond, a: CondStep): seq<Fid> {
    match a
    case NotifyOne => if c.waiting == [] then [] else [c.waiting[0]]
    case NotifyEach => c.waiting
    case _ => []
  }

  function Joined(steps: seq<CondStep>): seq<Fid> {
    if steps == [] then [] else JoinedBy(steps[0]) + Joined(steps[1..])
  }

  function Handed(c: Cond, steps: seq<CondStep>): seq<Fid>
    decreases |steps|
  {
    if steps == [] then []
    else match CondNext(c, steps[0])
      case None => []
      case Some(d) => HandedBy(c, steps[0]) + Handed(d, steps[1..])
  }

  function Returns(steps: seq<CondStep>, f: Fid): nat {
    if steps == [] then 0 else (if steps[0] == Return(f) then 1 else 0) + Returns(steps[1..], f)
  }

  lemma StepInOrder(c: Cond, a: CondStep)
    requires CondNext(c, a).Some?
    ensures c.waiting + JoinedBy(a) == HandedBy(c, a) + CondNext(c, a).value.waiting
  {
  }

  lemma Reassociate(w: seq<Fid>, j: seq<Fid>, js: seq<Fid>, h: seq<Fid>, d: seq<Fid>, hs: seq<Fid>, e: seq<Fid>)
    requires w + j == h + d && d + js == hs + e
    ensures w + (j + js) == (h + hs) + e
  {
    assert w + (j + js) == (w + j) + js;
    assert (h + d) + js == h + (d + js);
    assert h + (hs + e) == (h + hs) + e;
  }

  /** Fibers are handed to the scheduler in the order they joined, and those that were not still wait. */
  lemma {:induction false} WokenInOrder(c: Cond, steps: seq<CondStep>)
    requires CondRun(c, steps).Some?
    ensures c.waiting + Joined(steps) == Handed(c, steps) + CondRun(c, steps).value.waiting
    decreases |steps|
  {
    if steps != [] {
      var d := CondNext(c, steps[0]).value;
      WokenInOrder(d, steps[1..]);
      StepInOrder(c, steps[0]);
      Reassociate(c.waiting, JoinedBy(steps[0]), Joined(steps[1..]), HandedBy(c, steps[0]), d.waiting,
                  Handed(d, steps[1..]), CondRun(d, steps[1..]).value.waiting);
    }
  }

  /** A fiber returns from wait() once for each time it was handed to the scheduler, if it is not on its way. */
  lemma {:induction false} ReturnsOncePerWake(c: Cond, steps: seq<CondStep>, f: Fid)
    requires CondOk(c) && CondRun(c, steps).Some?
    ensures CondOk(CondRun(c, steps).value)
    ensures (if f in c.signalled then 1 else 0) + multiset(Handed(c, steps))[f]
         == Returns(steps, f) + (if f in CondRun(c, steps).value.signalled then 1 else 0)
    decreases |steps|
  {
    if steps != [] {
      var d := CondNext(c, steps[0]).value;
      StepCounts(c, steps[0], f);
      ReturnsOncePerWake(d, steps[1..], f);
      assert multiset(Handed(c, steps)) == multiset(HandedBy(c, steps[0])) + multiset(Handed(d, steps[1..]));
    }
  }

  lemma StepCounts(c: Cond, a: CondStep, f: Fid)
    requires CondOk(c) && CondNext(c, a).Some?
    ensures CondOk(CondNext(c, a).value)
    ensures (if f in c.signalled then 1 else 0) + multiset(HandedBy(c, a))[f]
         == (if a == Return(f) then 1 else 0) + (if f in CondNext(c, a).value.signalled then 1 else 0)
  {
    if a.NotifyEach? {
      DistinctCount(c.waiting, f);
    }
  }

  lemma {:induction false} DistinctCount(q: seq<Fid>, f: Fid)
    requires Distinct(q)
    ensures multiset(q)[f] == if f in q then 1 else 0
  {
    if q != [] {
      assert q == [q[0]] + q[1..];
      DistinctCount(q[1..], f);
    }
  }

  class CoCond {
    var m_wait_queue: seq<Fid>
    var m_timer: bool
    ghost var signalled: set<Fid>      // handed to the scheduler, mutex not retaken

    ghost function View(): Cond
      reads this
    {
      Cond(m_wait_queue, signalled, m_timer)
    }

    constructor ()
      ensures View() == NoOne
    {
      m_wait_queue, m_timer, signalled := [], false, {};
    }

    method Wait(self: Fid)
      modifies this
      ensures View() == Waited(old(View()), self)
      ensures m_timer && m_wait_queue == old(m_wait_queue) + [self]
    {
      m_wait_queue := m_wait_queue + [self];
      if !m_timer {
        m_timer := true;
      }
    }

    /** The fiber handed to the scheduler, if any. */
    method Notify() returns (fiber: Option<Fid>)
      modifies this
      ensures View() == Notified(old(View()))
      ensures if old(m_wait_queue) == [] then fiber == None && m_wait_queue == [] && m_timer == old(m_timer)
              else fiber.Some? && [fiber.value] + m_wait_queue == old(m_wait_queue) && !m_timer
    {
      if m_wait_queue == [] {
        return None;
      }
      fiber := Some(m_wait_queue[0]);
      m_wait_queue := m_wait_queue[1..];
      if m_timer {
        m_timer := false;
      }
      signalled := signalled + {fiber.value};
    }

    /** The fibers handed to the scheduler, in order. */
    method NotifyAll() returns (fibers: seq<Fid>)
      modifies this
      ensures View() == NotifiedAll(old(View()))
      ensures fibers == old(m_wait_queue) && m_wait_queue == [] && !m_timer
    {
      fibers := [];
      while m_wait_queue != []
        invariant fibers + m_wait_queue == old(m_wait_queue)
        invariant signalled + Members(m_wait_queue) == old(signalled) + Members(old(m_wait_queue))
        decreases |m_wait_queue|
      {
        var fiber := m_wait_queue[0];
        assert Members(m_wait_queue) == {fiber} + Members(m_wait_queue[1..]);
        m_wait_queue := m_wait_queue[1..];
        fibers, signalled := fibers + [fiber], signalled + {fiber};
      }
      if m_timer {
        m_timer := false;
      }
    }

    /** A fiber has retaken the mutex and returns from wait(lock); the object itself is not touched. */
    ghost method Relock(self: Fid)
      modifies this`signalled
      ensures View() == Relocked(old(View()), self)
    {
      signalled := signalled - {self};
    }
  }
}
