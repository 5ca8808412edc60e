/**
  The bounded channel between fibers (acid/common/channel.h, ChannelImpl).

  Every critical section under the channel's fiber mutex is one step: the part of push() or pop() up to
  its return or its wait, the part after a wake-up, and close(). Fibers interleave at will between steps.
 */
module Channels {
  import opened CoMutexSteps
  import opened Conditions

  datatype Chan<T> = Chan(
    capacity: nat,
    closed: bool,
    queue: seq<T>,
    pushCond: Cond,
    popCond: Cond,
    pending: map<Fid, T>,   // the argument of each push() that is parked or signalled
    pushed: seq<T>,         // history: values that push() accepted
    popped: seq<T>)         // history: values that pop() returned

  datatype Move<T> =
    | Push(f: Fid, v: T)
    | Pop(f: Fid)
    | PushAgain(f: Fid)     // push() continues after its wait
    | PopAgain(f: Fid)
    | Close

  datatype Reply<T> = Accepted | Received(v: T) | Refused | Sleeps | Done

  function NewChannel<T>(capacity: nat): Chan<T> {
    Chan(capacity, false, [], NoOne, NoOne, map[], [], [])
  }

  /** From the loop test of push() to the next wait or the return. */
  function PushBody<T>(c: Chan<T>, f: Fid, v: T): (Chan<T>, Reply<T>) {
    if |c.queue| >= c.capacity then
      (c.(pushCond := Waited(c.pushCond, f), pending := c.pending[f := v]), Sleeps)
    else
      (c.(queue := c.queue + [v], pushed := c.pushed + [v], popCond := Notified(c.popCond),
          pending := c.pending - {f}), Accepted)
  }

  function PopBody<T>(c: Chan<T>, f: Fid): (Chan<T>, Reply<T>) {
    if c.queue == [] then
      (c.(popCond := Waited(c.popCond, f)), Sleeps)
    else
      (c.(queue := c.queue[1..], popped := c.popped + [c.queue[0]], pushCond := Notified(c.pushCond)),
       Received(c.queue[0]))
  }

  predicate Enabled<T>(c: Chan<T>, m: Move<T>) {
    match m
    case Push(f, v) => Idle(c.pushCond, f) && Idle(c.popCond, f)
    case Pop(f) => Idle(c.pushCond, f) && Idle(c.popCond, f)
    case PushAgain(f) => f in c.pushCond.signalled && f in c.pending
    case PopAgain(f) => f in c.popCond.signalled
    case Close => true
  }

  function Step<T>(c: Chan<T>, m: Move<T>): (Chan<T>, Reply<T>)
    requires Enabled(c, m)
  {
    match m
    case Push(f, v) => if c.closed then (c, Refused) else PushBody(c, f, v)
    case Pop(f) => if c.closed then (c, Refused) else PopBody(c, f)
    case PushAgain(f) =>
      var c1 := c.(pushCond := Relocked(c.pushCond, f));
      if c.closed then (c1.(pending := c1.pending - {f}), Refused) else PushBody(c1, f, c.pending[f])
    case PopAgain(f) =>
      var c1 := c.(popCond := Relocked(c.popCond, f));
      if c.closed then (c1, Refused) else PopBody(c1, f)
    case Close =>
      if c.closed then (c, Done)
      else (c.(closed := true, pushCond := NotifiedAll(c.pushCond), popCond := NotifiedAll(c.popCond), queue := []), Done)
  }

  // ---- invariants of every interleaving ----

  /** A fiber is in one call at a time, and a push() in progress keeps its argument. */
  ghost predicate CallsOk<T>(c: Chan<T>) {
    && CondOk(c.pushCond) && CondOk(c.popCond)
    && (forall f :: f in c.pushCond.waiting || f in c.pushCond.signalled ==> f in c.pending && Idle(c.popCond, f))
  }

  /** A sleeping popper means every queued value already has a signalled popper; dually for free slots. */
  predicate NoLostWakeup<T>(c: Chan<T>) {
    && (c.popCond.waiting != [] ==> |c.queue| <= |c.popCond.signalled|)
    && (c.pushCond.waiting != [] ==> c.capacity - |c.queue| <= |c.pushCond.signalled|)
  }

  ghost predicate BoundedFifo<T>(c: Chan<T>) {
    && |c.queue| <= c.capacity
    && (!c.closed ==> c.pushed == c.popped + c.queue)
    && (c.closed ==> c.popped <= c.pushed && c.queue == [])
  }

  predicate NobodyLeftAfterClose<T>(c: Chan<T>) {
    c.closed ==> c.pushCond.waiting == [] && c.popCond.waiting == []
  }

  ghost predicate Inv<T>(c: Chan<T>) {
    CallsOk(c) && NoLostWakeup(c) && BoundedFifo(c) && NobodyLeftAfterClose(c)
  }

  lemma StepKeepsCalls<T>(c: Chan<T>, m: Move<T>)
    requires CallsOk(c) && Enabled(c, m)
    ensures CallsOk(Step(c, m).0)
  {
    match m
    case Push(f, v) => if !c.closed { PushBodyKeepsCalls(c, f, v); }
    case Pop(f) => if !c.closed { PopBodyKeepsCalls(c, f); }
    case PushAgain(f) => if !c.closed { PushBodyKeepsCalls(c.(pushCond := Relocked(c.pushCond, f)), f, c.pending[f]); }
    case PopAgain(f) => if !c.closed { PopBodyKeepsCalls(c.(popCond := Relocked(c.popCond, f)), f); }
    case Close =>
  }

  lemma PushBodyKeepsCalls<T>(c: Chan<T>, f: Fid, v: T)
    requires CallsOk(c) && Idle(c.pushCond, f) && Idle(c.popCond, f)
    ensures CallsOk(PushBody(c, f, v).0)
  {
  }

  lemma PopBodyKeepsCalls<T>(c: Chan<T>, f: Fid)
    requires CallsOk(c) && Idle(c.pushCond, f) && Idle(c.popCond, f)
    ensures CallsOk(PopBody(c, f).0)
  {
  }

  lemma StepKeepsWakeups<T>(c: Chan<T>, m: Move<T>)
    requires Inv(c) && Enabled(c, m)
    ensures NoLostWakeup(Step(c, m).0)
  {
    NotifiedOk(c.pushCond);
    NotifiedOk(c.popCond);
    if m.PushAgain? { RelockedOk(c.pushCond, m.f); }
    if m.PopAgain? { RelockedOk(c.popCond, m.f); }
  }

  lemma StepKeepsFifo<T>(c: Chan<T>, m: Move<T>)
    requires BoundedFifo(c) && Enabled(c, m)
    ensures BoundedFifo(Step(c, m).0)
  {
  }

  lemma StepKeepsClosed<T>(c: Chan<T>, m: Move<T>)
    requires NobodyLeftAfterClose(c) && Enabled(c, m)
    ensures NobodyLeftAfterClose(Step(c, m).0)
  {
  }

  /** The state an interleaving reaches, up to its first impossible move. */
  function Run<T>(c: Chan<T>, moves: seq<Move<T>>): Chan<T>
    decreases |moves|
  {
    if moves == [] || !Enabled(c, moves[0]) then c
    else Run(Step(c, moves[0]).0, moves[1..])
  }

  function Replies<T>(c: Chan<T>, moves: seq<Move<T>>): seq<Reply<T>>
    decreases |moves|
  {
    if moves == [] || !Enabled(c, moves[0]) then []
    else [Step(c, moves[0]).1] + Replies(Step(c, moves[0]).0, moves[1..])
  }

  function ReceivedIn<T>(replies: seq<Reply<T>>): seq<T> {
    if replies == [] then []
    else (if replies[0].Received? then [replies[0].v] else []) + ReceivedIn(replies[1..])
  }

  lemma {:induction false} RunKeepsInv<T>(c: Chan<T>, moves: seq<Move<T>>)
    requires Inv(c)
    ensures Inv(Run(c, moves))
    decreases |moves|
  {
    if moves != [] && Enabled(c, moves[0]) {
      StepKeepsCalls(c, moves[0]);
      StepKeepsWakeups(c, moves[0]);
      StepKeepsFifo(c, moves[0]);
      StepKeepsClosed(c, moves[0]);
      RunKeepsInv(Step(c, moves[0]).0, moves[1..]);
    }
  }

  // ---- what the channel promises ----

  /** No lost wake-up, in every state any interleaving reaches: a popper sleeps only while each queued
      value has a signalled popper to take it, a pusher only while each free slot has a signalled pusher,
      a closed channel has no sleepers, and when nobody is signalled poppers sleep over an empty queue,
      pushers over a full one, so with room for one value never both. */
  lemma NoLostWakeups<T>(capacity: nat, moves: seq<Move<T>>)
    ensures var c := Run(NewChannel<T>(capacity), moves);
      && (c.popCond.waiting != [] ==> |c.queue| <= |c.popCond.signalled|)
      && (c.pushCond.waiting != [] ==> c.capacity - |c.queue| <= |c.pushCond.signalled|)
      && (c.closed ==> c.pushCond.waiting == [] && c.popCond.waiting == [])
      && (c.popCond.signalled == {} && c.popCond.waiting != [] ==> c.queue == [])
      && (c.pushCond.signalled == {} && c.pushCond.waiting != [] ==> |c.queue| == capacity)
      && (c.popCond.signalled == {} && c.pushCond.signalled == {} && capacity >= 1 ==>
            c.popCond.waiting == [] || c.pushCond.waiting == [])
  {
    RunKeepsInv(NewChannel<T>(capacity), moves);
    RunKeepsCapacity(NewChannel<T>(capacity), moves);
  }

  lemma {:induction false} RunKeepsCapacity<T>(c: Chan<T>, moves: seq<Move<T>>)
    ensures Run(c, moves).capacity == c.capacity
    decreases |moves|
  {
    if moves != [] && Enabled(c, moves[0]) {
      RunKeepsCapacity(Step(c, moves[0]).0, moves[1..]);
    }
  }

  lemma {:induction false} PoppedIsReceived<T>(c: Chan<T>, moves: seq<Move<T>>)
    ensures Run(c, moves).popped == c.popped + ReceivedIn(Replies(c, moves))
    decreases |moves|
  {
    if moves != [] && Enabled(c, moves[0]) {
      PoppedIsReceived(Step(c, moves[0]).0, moves[1..]);
    }
  }

  /** Bounded FIFO over whole interleavings: the values that pop() calls return, in order, followed while
      the channel is open by the queue, are the values that push() calls had accepted, in order, and the
      queue never outgrows its capacity. */
  lemma BoundedFifoRun<T>(capacity: nat, moves: seq<Move<T>>)
    ensures var c := Run(NewChannel<T>(capacity), moves);
      var received := ReceivedIn(Replies(NewChannel<T>(capacity), moves));
      && |c.queue| <= capacity
      && received <= c.pushed
      && (!c.closed ==> received + c.queue == c.pushed)
  {
    RunKeepsInv(NewChannel<T>(capacity), moves);
    RunKeepsCapacity(NewChannel<T>(capacity), moves);
    PoppedIsReceived(NewChannel<T>(capacity), moves);
  }

  /** The value that the push() behind a move carries. */
  function Argument<T>(c: Chan<T>, m: Move<T>): seq<T>
    requires Enabled(c, m)
  {
    match m
    case Push(_, v) => [v]
    case PushAgain(f) => [c.pending[f]]
    case _ => []
  }

  /** What each reply tells its caller about the accepted and returned values. */
  lemma RepliesTellTheTruth<T>(c: Chan<T>, m: Move<T>)
    requires Inv(c) && Enabled(c, m)
    ensures var (d, r) := Step(c, m);
      && (r.Accepted? ==> !c.closed && |c.queue| < c.capacity && d.pushed == c.pushed + Argument(c, m) && d.popped == c.popped)
      && (r.Received? ==> !c.closed && |c.popped| < |c.pushed| && r.v == c.pushed[|c.popped|]
                          && d.popped == c.popped + [r.v] && d.pushed == c.pushed)
      && (r.Refused? ==> c.closed && d.pushed == c.pushed && d.popped == c.popped)
      && (r.Sleeps? ==> !c.closed && d.queue == c.queue && (m.f in d.pushCond.waiting || m.f in d.popCond.waiting))
  {
  }

  /** close() marks the channel, drops the queue, and hands every sleeper to the scheduler, in both queues; what was
      accepted or delivered so far stays as it is. */
  lemma CloseWakesEveryone<T>(c: Chan<T>)
    requires Inv(c)
    ensures var d := Step(c, Move.Close).0;
      && d.closed && d.queue == [] && d.pushCond.waiting == [] && d.popCond.waiting == []
      && (forall f :: f in d.pushCond.signalled <==> f in c.pushCond.signalled || f in c.pushCond.waiting)
      && (forall f :: f in d.popCond.signalled <==> f in c.popCond.signalled || f in c.popCond.waiting)
      && !d.pushCond.timer && !d.popCond.timer
      && d.pushed == c.pushed && d.popped == c.popped && d.pending == c.pending && d.capacity == c.capacity
  {
  }

  /** A call that was asleep then is able to go on, and is refused. */
  lemma SleepersAreRefused<T>(c: Chan<T>, f: Fid)
    requires Inv(c)
    ensures var d := Step(c, Move.Close).0;
      && (f in c.pushCond.waiting ==> Enabled(d, Move.PushAgain(f)) && Step(d, Move.PushAgain(f)).1 == Refused)
      && (f in c.popCond.waiting ==> Enabled(d, Move.PopAgain(f)) && Step(d, Move.PopAgain(f)).1 == Refused)
  {
    CloseWakesEveryone(c);
  }

  /** A run leaves the channel closed exactly if it was closed, or one of the moves made is a close(). */
  lemma {:induction false} ClosedIff<T>(c: Chan<T>, moves: seq<Move<T>>)
    ensures Run(c, moves).closed <==> c.closed || CloseMade(moves, |Replies(c, moves)|)
    decreases |moves|
  {
    if moves != [] && Enabled(c, moves[0]) {
      var d := Step(c, moves[0]).0;
      ClosedIff(d, moves[1..]);
      CloseFirstOrLater(moves, |Replies(d, moves[1..])|);
    }
  }

  /** One of the first `n` moves is a close(). */
  predicate CloseMade<T>(moves: seq<Move<T>>, n: nat) {
    exists i :: 0 <= i < |moves| && i < n && moves[i].Close?
  }

  lemma CloseFirstOrLater<T>(moves: seq<Move<T>>, n: nat)
    requires moves != []
    ensures CloseMade(moves, n + 1) <==> moves[0].Close? || CloseMade(moves[1..], n)
  {
    if CloseMade(moves[1..], n) {
      var i :| 0 <= i < |moves| - 1 && i < n && moves[1..][i].Close?;
      assert moves[i + 1].Close?;
    }
    if CloseMade(moves, n + 1) && !moves[0].Close? {
      var i :| 0 <= i < |moves| && i < n + 1 && moves[i].Close?;
      assert moves[1..][i - 1].Close?;
    }
  }

  predicate InPush<T>(c: Chan<T>, f: Fid) {
    f in c.pushCond.waiting || f in c.pushCond.signalled
  }

  /** A push() that sleeps still has the value it was called with, whatever others do meanwhile, until it returns
      and the fiber calls again. */
  lemma {:induction false} PushKeepsItsValue<T>(c: Chan<T>, moves: seq<Move<T>>, f: Fid, v: T)
    requires CallsOk(c) && (InPush(c, f) ==> c.pending[f] == v)
    requires forall m :: m in moves && m.Push? ==> m.f != f
    ensures var d := Run(c, moves); InPush(d, f) ==> f in d.pending && d.pending[f] == v
    decreases |moves|
  {
    if moves != [] && Enabled(c, moves[0]) {
      StepKeepsCalls(c, moves[0]);
      StepKeepsValue(c, moves[0], f);
      PushKeepsItsValue(Step(c, moves[0]).0, moves[1..], f, v);
    }
  }

  lemma StepKeepsValue<T>(c: Chan<T>, m: Move<T>, f: Fid)
    requires CallsOk(c) && Enabled(c, m) && (m.Push? ==> m.f != f)
    ensures var d := Step(c, m).0; InPush(d, f) ==> InPush(c, f) && f in d.pending && d.pending[f] == c.pending[f]
  {
  }

  /** A push() that goes to sleep keeps its argument. */
  lemma SleepingPushHasItsArgument<T>(c: Chan<T>, f: Fid, v: T)
    requires CallsOk(c) && Enabled(c, Move.Push(f, v)) && Step(c, Move.Push(f, v)).1.Sleeps?
    ensures var d := Step(c, Move.Push(f, v)).0; CallsOk(d) && InPush(d, f) && d.pending[f] == v
  {
    StepKeepsCalls(c, Move.Push(f, v));
  }

  /** Once closed, no push() or pop() succeeds and nobody goes to sleep. */
  lemma {:induction false} NothingAfterClose<T>(c: Chan<T>, moves: seq<Move<T>>)
    requires c.closed
    ensures forall i :: 0 <= i < |Replies(c, moves)| ==> Replies(c, moves)[i].Refused? || Replies(c, moves)[i].Done?
    ensures Run(c, moves).pushed == c.pushed && Run(c, moves).popped == c.popped
    decreases |moves|
  {
    if moves != [] && Enabled(c, moves[0]) {
      NothingAfterClose(Step(c, moves[0]).0, moves[1..]);
    }
  }

  /** A channel of capacity 0 is no rendezvous: nothing is ever accepted, so nothing is ever delivered. */
  lemma {:induction false} ZeroCapacityDeliversNothing<T>(c: Chan<T>, moves: seq<Move<T>>)
    requires c.capacity == 0 && c.queue == []
    ensures Run(c, moves).pushed == c.pushed && Run(c, moves).popped == c.popped
    decreases |moves|
  {
    if moves != [] && Enabled(c, moves[0]) {
      ZeroCapacityDeliversNothing(Step(c, moves[0]).0, moves[1..]);
    }
  }

  // ---- the object ----

  class ChannelImpl<T> {
    var m_is_close: bool
    const m_capacity: nat
    const m_push_cond: CoCond
    const m_pop_cond: CoCond
    var m_queue: seq<T>
    var pending: map<Fid, T>      // the arguments on the stacks of parked push() calls
    ghost var pushed: seq<T>
    ghost var popped: seq<T>

    ghost function View(): Chan<T>
      reads this, m_push_cond, m_pop_cond
    {
      Chan(m_capacity, m_is_close, m_queue, m_push_cond.View(), m_pop_cond.View(), pending, pushed, popped)
    }

    ghost predicate Valid() {
      m_push_cond != m_pop_cond
    }

    constructor (capacity: nat)
      ensures Valid() && fresh(m_push_cond) && fresh(m_pop_cond)
      ensures View() == NewChannel(capacity)
    {
      m_is_close, m_capacity, m_queue := false, capacity, [];
      m_push_cond := new CoCond();
      m_pop_cond := new CoCond();
      pending, pushed, popped := map[], [], [];
    }

    /** push() up to its return or its wait. */
    method Push(self: Fid, t: T) returns (reply: Reply<T>)
      requires Valid()
      modifies this, m_push_cond, m_pop_cond
      ensures (View(), reply) == (if old(m_is_close) then (old(View()), Refused) else PushBody(old(View()), self, t))
    {
      if m_is_close {
        return Refused;
      }
      reply := PushFromTest(self, t);
    }

    /** push() after a wake-up and the relock. */
    method PushAgain(self: Fid) returns (reply: Reply<T>)
      requires Valid() && Enabled(View(), Move.PushAgain(self))
      modifies this, m_push_cond, m_pop_cond
      ensures (View(), reply) == Step(old(View()), Move.PushAgain(self))
    {
      m_push_cond.Relock(self);
      if m_is_close {
        pending := pending - {self};
        return Refused;
      }
      reply := PushFromTest(self, pending[self]);
    }

    method PushFromTest(self: Fid, t: T) returns (reply: Reply<T>)
      requires Valid()
      modifies this, m_push_cond, m_pop_cond
      ensures (View(), reply) == PushBody(old(View()), self, t)
      ensures if |old(m_queue)| < m_capacity then reply == Accepted && m_queue == old(m_queue) + [t]
              else && reply == Sleeps && m_queue == old(m_queue)
                   && m_push_cond.m_wait_queue == old(m_push_cond.m_wait_queue) + [self]
    {
      if |m_queue| >= m_capacity {
        m_push_cond.Wait(self);
        pending := pending[self := t];
        return Sleeps;
      }
      m_queue := m_queue + [t];
      pushed := pushed + [t];
      var _ := m_pop_cond.Notify();
      pending := pending - {self};
      return Accepted;
    }

    /** pop() up to its return or its wait. */
    method Pop(self: Fid) returns (reply: Reply<T>)
      requires Valid()
      modifies this, m_push_cond, m_pop_cond
      ensures (View(), reply) == (if old(m_is_close) then (old(View()), Refused) else PopBody(old(View()), self))
    {
      if m_is_close {
        return Refused;
      }
      reply := PopFromTest(self);
    }

    /** pop() after a wake-up and the relock. */
    method PopAgain(self: Fid) returns (reply: Reply<T>)
      requires Valid() && Enabled(View(), Move.PopAgain(self))
      modifies this, m_push_cond, m_pop_cond
      ensures (View(), reply) == Step(old(View()), Move.PopAgain(self))
    {
      m_pop_cond.Relock(self);
      if m_is_close {
        return Refused;
      }
      reply := PopFromTest(self);
    }

    method PopFromTest(self: Fid) returns (reply: Reply<T>)
      requires Valid()
      modifies this, m_push_cond, m_pop_cond
      ensures (View(), reply) == PopBody(old(View()), self)
      ensures if old(m_queue) != [] then old(m_queue) == [reply.v] + m_queue && reply == Received(reply.v)
              else reply == Sleeps && m_queue == [] && m_pop_cond.m_wait_queue == old(m_pop_cond.m_wait_queue) + [self]
    {
      if m_queue == [] {
        m_pop_cond.Wait(self);
        return Sleeps;
      }
      var t := m_queue[0];
      m_queue := m_queue[1..];
      popped := popped + [t];
      var _ := m_push_cond.Notify();
      return Received(t);
    }

    /** The first time: everybody asleep is handed to the scheduler, in order, and the queue is dropped. */
    method Close() returns (pushers: seq<Fid>, poppers: seq<Fid>)
      requires Valid()
      modifies this, m_push_cond, m_pop_cond
      ensures View() == Step(old(View()), Move.Close).0
      ensures m_is_close
      ensures !old(m_is_close) ==>
        && pushers == old(m_push_cond.m_wait_queue) && poppers == old(m_pop_cond.m_wait_queue)
        && m_queue == [] && m_push_cond.m_wait_queue == [] && m_pop_cond.m_wait_queue == []
      ensures old(m_is_close) ==> pushers == poppers == [] && View() == old(View())
    {
      if m_is_close {
        return [], [];
      }
      m_is_close := true;
      pushers := m_push_cond.NotifyAll();
      poppers := m_pop_cond.NotifyAll();
      m_queue := [];
    }
  }
}
