/**
  The timers without the set: each timer by itself, with the clock reading that last started it (acid/common/timer.h,
  timer.cpp). Whatever a run does to the manager's ordered set is what it does to these, and so is what fires and
  how long the sleeper is told to wait.
 */
module TimerLives {
  import opened Options
  import opened TimerSet
  import opened TimerManagerSpec
  import opened TimerRuns

  datatype Life = Life(callback: nat, recurring: bool, ms: Ms, start: Ms, pending: bool)

  /** All timers made so far, and the clock reading of the last look for expired ones. */
  datatype Lives = Lives(of: map<nat, Life>, previous: Ms)

  /** When a timer is due: its interval after its start, on the 64-bit clock. */
  function Due(l: Life): Ms {
    (l.start + l.ms) % U64
  }

  /** A step back of the clock that counts as a rollover. */
  predicate RolledOver(previous: Ms, now: Ms) {
    now < previous && (previous < Hour || previous - now > Hour)
  }

  predicate Fires(s: Lives, id: nat, at: Ms) {
    id in s.of && s.of[id].pending && (RolledOver(s.previous, at) || Due(s.of[id]) <= at)
  }

  predicate AnyPending(s: Lives) {
    exists id :: id in s.of && s.of[id].pending
  }

  function Spent(l: Life, at: Ms): Life {
    if l.recurring then l.(start := at) else l.(pending := false)
  }

  function LivesAfter(s: Lives, op: Op, at: Ms): Lives {
    match op
    case OpAdd(id, ms, cb, recurring) => s.(of := s.of[id := Life(cb, recurring, ms, at, true)])
    case OpCancel(id) => if id in s.of then s.(of := s.of[id := s.of[id].(pending := false)]) else s
    case OpRefresh(id) =>
      if id in s.of && s.of[id].pending then s.(of := s.of[id := s.of[id].(start := at)]) else s
    case OpReset(id, ms, fromNow) =>
      if id in s.of && s.of[id].pending then
        s.(of := s.of[id := s.of[id].(ms := ms, start := if fromNow then at else s.of[id].start)])
      else s
    case OpGetNext => s
    case OpExpire =>
      if !AnyPending(s) then s
      else Lives(map id | id in s.of :: if Fires(s, id, at) then Spent(s.of[id], at) else s.of[id], at)
  }

  function LivesRun(s: Lives, ops: seq<(Op, Ms)>): Lives
    decreases |ops|
  {
    if ops == [] then s else LivesRun(LivesAfter(s, ops[0].0, ops[0].1), ops[1..])
  }

  /** The manager's record of a timer that is pending or not. */
  predicate Shown(l: Life, e: Entry) {
    && e.recurring == l.recurring
    && (l.pending ==> e.ms == l.ms && e.next == Due(l) && e.callback == Some(l.callback))
    && (!l.pending ==> e.callback == None)
  }

  ghost predicate Shows(s: Lives, m: Manager) {
    && Inv(m) && s.previous == m.previous
    && (forall id :: id in s.of <==> id in m.entries)
    && (forall id :: id in m.queue <==> id in s.of && s.of[id].pending)
    && forall id :: id in s.of && id in m.entries ==> Shown(s.of[id], m.entries[id])
  }

  // ---- single operations ----

  lemma PlaceMembers(m: Manager, id: nat)
    requires Sorted(m.queue, m.entries) && id in m.entries && id !in m.queue
    ensures forall x :: x in Place(m, id).queue <==> x == id || x in m.queue
    ensures Place(m, id).entries == m.entries && Place(m, id).previous == m.previous
  {
    PlaceEffect(m, id);
  }

  lemma AddShows(s: Lives, m: Manager, id: nat, ms: Ms, cb: nat, recurring: bool, at: Ms)
    requires Shows(s, m) && id !in m.entries
    ensures Shows(LivesAfter(s, OpAdd(id, ms, cb, recurring), at), AddTimer(m, id, ms, cb, recurring, at))
  {
    AddKeepsInv(m, id, ms, cb, recurring, at);
    var x := Entry(recurring, ms, Deadline(at, ms), Some(cb));
    SortedFrame(m.queue, m.entries, id, x);
    PlaceMembers(m.(entries := m.entries[id := x]), id);
  }

  lemma CancelShows(s: Lives, m: Manager, id: nat, at: Ms)
    requires Shows(s, m) && id in m.entries
    ensures Shows(LivesAfter(s, OpCancel(id), at), Cancel(m, id).0)
    ensures Cancel(m, id).1 <==> s.of[id].pending
  {
    CancelKeepsInv(m, id);
    WithoutEffect(m, id);
  }

  /** A pending timer's record with a new interval or start, and the set without it. */
  function Moved(m: Manager, id: nat, l: Life): Manager
    requires id in m.entries
  {
    m.(entries := m.entries[id := m.entries[id].(ms := l.ms, next := Due(l))], queue := Without(m.queue, id))
  }

  /** Put back, it is in its place. */
  lemma MoveShows(s: Lives, m: Manager, id: nat, l: Life)
    requires Shows(s, m) && id in m.entries && s.of[id].pending
    requires l.pending && l.callback == s.of[id].callback && l.recurring == s.of[id].recurring
    ensures Shows(s.(of := s.of[id := l]), Place(Moved(m, id, l), id))
  {
    var out := Moved(m, id, l);
    TakenOut(m, id, out.entries[id]);
    WithoutEffect(m, id);
    PlaceKeepsInv(out, id);
    PlaceMembers(out, id);
  }

  lemma TickApart(s: Lives, m: Manager, ticked: bool)
    requires Shows(s, m)
    ensures Shows(s, m.(ticked := ticked))
  {
  }

  lemma RefreshShows(s: Lives, m: Manager, id: nat, at: Ms)
    requires Shows(s, m) && id in m.entries
    ensures Shows(LivesAfter(s, OpRefresh(id), at), Refresh(m, id, at).0)
    ensures Refresh(m, id, at).1 <==> s.of[id].pending
  {
    if s.of[id].pending {
      var l := s.of[id].(start := at);
      MoveShows(s, m, id, l);
      TickApart(s.(of := s.of[id := l]), Place(Moved(m, id, l), id), m.ticked);
      RefreshIsMove(m, id, at, l);
    }
  }

  lemma RefreshIsMove(m: Manager, id: nat, at: Ms, l: Life)
    requires id in m.entries && id in m.queue && m.entries[id].callback.Some?
    requires l.ms == m.entries[id].ms && l.start == at
    ensures Refresh(m, id, at) == (Place(Moved(m, id, l), id).(ticked := m.ticked), true)
  {
  }

  /** m_next - m_ms gives the start back, wrapped or not. */
  lemma StartAgain(start: Ms, ms: Ms)
    ensures StartOf((start + ms) % U64, ms) == start
  {
  }

  lemma ResetShows(s: Lives, m: Manager, id: nat, ms: Ms, fromNow: bool, at: Ms)
    requires Shows(s, m) && id in m.entries
    ensures Shows(LivesAfter(s, OpReset(id, ms, fromNow), at), Reset(m, id, ms, fromNow, at).0)
    ensures s.of[id].pending ==> Reset(m, id, ms, fromNow, at).1
    ensures Reset(m, id, ms, fromNow, at).1 ==> s.of[id].pending || (ms == m.entries[id].ms && !fromNow)
  {
    if s.of[id].pending {
      if ms == m.entries[id].ms && !fromNow {
        assert s.of[id := s.of[id].(ms := ms)] == s.of;
      } else {
        ResetMoves(s, m, id, ms, fromNow, at);
      }
    }
  }

  lemma ResetMoves(s: Lives, m: Manager, id: nat, ms: Ms, fromNow: bool, at: Ms)
    requires Shows(s, m) && id in m.entries && s.of[id].pending && (ms != m.entries[id].ms || fromNow)
    ensures Reset(m, id, ms, fromNow, at).1
    ensures Shows(LivesAfter(s, OpReset(id, ms, fromNow), at), Reset(m, id, ms, fromNow, at).0)
  {
    var l := s.of[id];
    var l1 := l.(ms := ms, start := if fromNow then at else l.start);
    assert Shown(l, m.entries[id]);
    MoveShows(s, m, id, l1);
    ResetIsMove(m, id, ms, fromNow, at, l, l1);
  }

  lemma ResetIsMove(m: Manager, id: nat, ms: Ms, fromNow: bool, at: Ms, l: Life, l1: Life)
    requires id in m.entries && id in m.queue && m.entries[id].callback.Some? && (ms != m.entries[id].ms || fromNow)
    requires l.ms == m.entries[id].ms && m.entries[id].next == Due(l)
    requires l1.ms == ms && l1.start == if fromNow then at else l.start
    ensures Reset(m, id, ms, fromNow, at) == (Place(Moved(m, id, l1), id), true)
  {
    StartAgain(l.start, l.ms);
  }

  /** What fires is what is pending and due, or all that is pending on a rollover. */
  lemma FiresExactly(s: Lives, m: Manager, at: Ms)
    requires Shows(s, m)
    ensures forall id :: id in Expire(m, at).1 <==> Fires(s, id, at)
  {
    RolloverIff(m.previous, at);
    if Rollover(m.previous, at) {
      ExpiryEffect(m, at);
    } else {
      ExpiryFiresExactlyTheDue(m, at);
      forall id | id in m.queue ensures m.entries[id].next == Due(s.of[id]) {
        assert Shown(s.of[id], m.entries[id]);
      }
    }
  }

  lemma PendingIff(s: Lives, m: Manager)
    requires Shows(s, m)
    ensures AnyPending(s) <==> m.queue != []
  {
    if m.queue != [] {
      assert m.queue[0] in m.queue;
    }
  }

  lemma ExpireShows(s: Lives, m: Manager, at: Ms)
    requires Shows(s, m)
    ensures Shows(LivesAfter(s, OpExpire, at), Expire(m, at).0)
  {
    PendingIff(s, m);
    if AnyPending(s) {
      ExpireKeepsInv(m, at);
      FiresExactly(s, m, at);
      ExpiryEffect(m, at);
      var t, m1 := LivesAfter(s, OpExpire, at), Expire(m, at).0;
      forall id | id in s.of ensures Shown(t.of[id], m1.entries[id]) {
        assert Shown(s.of[id], m.entries[id]);
      }
    }
  }

  // ---- runs ----

  lemma ApplyShows(s: Lives, w: World, op: Op, at: Ms)
    requires Shows(s, w.m) && Known(w, op)
    ensures Shows(LivesAfter(s, op, at), Apply(w, op, at).m)
  {
    match op
    case OpAdd(id, ms, cb, recurring) => AddShows(s, w.m, id, ms, cb, recurring, at);
    case OpCancel(id) => CancelShows(s, w.m, id, at);
    case OpRefresh(id) => RefreshShows(s, w.m, id, at);
    case OpReset(id, ms, fromNow) => ResetShows(s, w.m, id, ms, fromNow, at);
    case OpGetNext => TickApart(s, w.m, false);
    case OpExpire => ExpireShows(s, w.m, at);
  }

  lemma {:induction false} RunShows(s: Lives, w: World, ops: seq<(Op, Ms)>)
    requires Shows(s, w.m) && AllKnown(w, ops)
    ensures Shows(LivesRun(s, ops), Run(w, ops).m)
    decreases |ops|
  {
    if ops != [] {
      ApplyKeepsInv(w, ops[0].0, ops[0].1);
      ApplyShows(s, w, ops[0].0, ops[0].1);
      RunShows(LivesAfter(s, ops[0].0, ops[0].1), Apply(w, ops[0].0, ops[0].1), ops[1..]);
    }
  }

  /** Every operation is about a timer there is, every new timer at an address of its own. */
  ghost predicate AllKnown(w: World, ops: seq<(Op, Ms)>)
    requires Inv(w.m)
    decreases |ops|
  {
    if ops == [] then true
    else if !Known(w, ops[0].0) then false
    else
      ApplyKeepsInv(w, ops[0].0, ops[0].1);
      AllKnown(Apply(w, ops[0].0, ops[0].1), ops[1..])
  }

  /**
    After any run, on any clock: the set holds exactly the timers that were added and neither cancelled nor, as
    one-shots, spent; and each is due at the clock reading that last started it, by add_timer(), refresh(),
    reset() or its own expiry, plus its interval, modulo 2^64.
   */
  lemma DeadlineIsStartPlusInterval(start: Ms, ops: seq<(Op, Ms)>)
    requires AllKnown(NewWorld(start), ops)
    ensures var s, m := LivesRun(Lives(map[], start), ops), Run(NewWorld(start), ops).m;
      && (forall id :: id in m.queue <==> id in s.of && s.of[id].pending)
      && (forall id :: id in m.queue ==>
        && id in m.entries && m.entries[id].ms == s.of[id].ms && m.entries[id].recurring == s.of[id].recurring
        && m.entries[id].next == (s.of[id].start + s.of[id].ms) % U64
        && m.entries[id].callback == Some(s.of[id].callback))
  {
    RunShows(Lives(map[], start), NewWorld(start), ops);
    var s, m := LivesRun(Lives(map[], start), ops), Run(NewWorld(start), ops).m;
    forall id | id in m.queue ensures id in m.entries && Shown(s.of[id], m.entries[id]) {
    }
  }

  /** The next expiry of such a run fires exactly the pending timers that are due by then, or all on a rollover. */
  lemma ExpiryAfterRun(start: Ms, ops: seq<(Op, Ms)>, at: Ms)
    requires AllKnown(NewWorld(start), ops)
    ensures var s := LivesRun(Lives(map[], start), ops);
      forall id :: id in Expire(Run(NewWorld(start), ops).m, at).1 <==> Fires(s, id, at)
  {
    RunShows(Lives(map[], start), NewWorld(start), ops);
    FiresExactly(LivesRun(Lives(map[], start), ops), Run(NewWorld(start), ops).m, at);
  }

  /** And the sleeper is told to wait until the first of them is due: not at all if one is due already. */
  lemma WaitAfterRun(start: Ms, ops: seq<(Op, Ms)>, at: Ms)
    requires AllKnown(NewWorld(start), ops)
    ensures var s, wait := LivesRun(Lives(map[], start), ops), GetNextTimer(Run(NewWorld(start), ops).m, at).1;
      if AnyPending(s) then
        && (forall id :: id in s.of && s.of[id].pending ==> at + wait <= Due(s.of[id]) || wait == 0)
        && exists id :: id in s.of && s.of[id].pending && (Due(s.of[id]) == at + wait || (wait == 0 && Due(s.of[id]) <= at))
      else wait == NoTimer
  {
    var s, m := LivesRun(Lives(map[], start), ops), Run(NewWorld(start), ops).m;
    RunShows(Lives(map[], start), NewWorld(start), ops);
    PendingIff(s, m);
    if m.queue != [] {
      forall id | id in m.queue ensures m.entries[m.queue[0]].next <= m.entries[id].next == Due(s.of[id]) {
        FirstIsLeast(m.queue, m.entries, id);
        assert Shown(s.of[id], m.entries[id]);
      }
      assert m.queue[0] in m.queue;
    }
  }

  // ---- one timer from its start to its expiry ----

  lemma FiresFromItsDeadline(m: Manager, id: nat, due: Ms, now: Ms, later: Ms)
    requires Inv(m) && id in m.queue && id in m.entries && m.entries[id].next == due && now <= due
    ensures !Rollover(m.previous, later) ==> (id in Expire(m, later).1 <==> due <= later)
    ensures (forall x :: x in m.queue && x in m.entries ==> m.entries[x].next >= due) ==>
      GetNextTimer(m, now).1 == due - now
  {
    if !Rollover(m.previous, later) {
      ExpiryFiresExactlyTheDue(m, later);
    }
    FirstIsLeast(m.queue, m.entries, id);
    assert m.queue[0] in m.queue;
  }

  /** A timer of `ms` milliseconds added at `now` fires at the expiries from now + ms on and at none before, and if
      it is the first the sleeper is told to wait `ms`. */
  lemma AddedFiresOnTime(m: Manager, id: nat, ms: Ms, cb: nat, recurring: bool, now: Ms, later: Ms)
    requires Inv(m) && id !in m.entries && now + ms < U64
    ensures var m1 := AddTimer(m, id, ms, cb, recurring, now);
      && Inv(m1) && id in m1.queue
      && (!Rollover(m.previous, later) ==> (id in Expire(m1, later).1 <==> later >= now + ms))
      && ((forall x :: x in m.queue && x in m.entries ==> m.entries[x].next >= now + ms) ==>
            GetNextTimer(m1, now).1 == ms)
  {
    AddKeepsInv(m, id, ms, cb, recurring, now);
    var x := Entry(recurring, ms, Deadline(now, ms), Some(cb));
    SortedFrame(m.queue, m.entries, id, x);
    PlaceMembers(m.(entries := m.entries[id := x]), id);
    FiresFromItsDeadline(AddTimer(m, id, ms, cb, recurring, now), id, now + ms, now, later);
  }

  lemma MovedIsPending(m: Manager, id: nat, l: Life)
    requires Inv(m) && id in m.entries
    ensures var t := Place(Moved(m, id, l), id); id in t.queue && id in t.entries && t.entries[id].next == Due(l)
  {
    TakenOut(m, id, Moved(m, id, l).entries[id]);
    PlaceMembers(Moved(m, id, l), id);
  }

  /** Refreshed at `now`, it fires from now + ms on. */
  lemma RefreshedFiresOnTime(m: Manager, id: nat, now: Ms, later: Ms)
    requires Inv(m) && id in m.entries && id in m.queue && now + m.entries[id].ms < U64
    ensures var m1 := Refresh(m, id, now).0;
      && Refresh(m, id, now).1 && Inv(m1) && id in m1.queue
      && (!Rollover(m.previous, later) ==> (id in Expire(m1, later).1 <==> later >= now + m.entries[id].ms))
  {
    RefreshKeepsInv(m, id, now);
    var l := Life(0, false, m.entries[id].ms, now, true);
    RefreshIsMove(m, id, now, l);
    MovedIsPending(m, id, l);
    FiresFromItsDeadline(Refresh(m, id, now).0, id, now + m.entries[id].ms, now, later);
  }

  /** Reset to another interval it fires that long after `now`, or after its old start. */
  lemma ResetFiresOnTime(m: Manager, id: nat, ms: Ms, fromNow: bool, start: Ms, now: Ms, later: Ms)
    requires Inv(m) && id in m.entries && id in m.queue && (fromNow || ms != m.entries[id].ms)
    requires m.entries[id].next == start + m.entries[id].ms
    requires (if fromNow then now else start) + ms < U64
    ensures var m1 := Reset(m, id, ms, fromNow, now).0;
      && Reset(m, id, ms, fromNow, now).1 && Inv(m1) && id in m1.queue
      && (!Rollover(m.previous, later) ==>
            (id in Expire(m1, later).1 <==> later >= (if fromNow then now else start) + ms))
  {
    ResetKeepsInv(m, id, ms, fromNow, now);
    var from: Ms := if fromNow then now else start;
    var l := Life(0, false, ms, from, true);
    ResetIsMove(m, id, ms, fromNow, now, Life(0, false, m.entries[id].ms, start, true), l);
    MovedIsPending(m, id, l);
    FiresFromItsDeadline(Reset(m, id, ms, fromNow, now).0, id, from + ms, from, later);
  }
}
