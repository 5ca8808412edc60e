/**
  Runs of the timer manager (acid/common/timer.cpp): expiry fires exactly the due timers in deadline order, or all
  of them on a rollover; a one-shot timer ends in one way, whatever the clock does; and no earlier deadline is
  missed but by the steps named.
 */
module TimerRuns {
  import opened Options
  import opened TimerSet
  import opened TimerManagerSpec

  // ---- what one call of list_expired_callback() does ----

  /** Whatever the clock says: the timers taken off the front fire, in (deadline, address) order; recurring ones
      are due again at now + ms, one-shots are spent, all others are untouched. On a rollover that is every
      pending timer. */
  lemma ExpiryEffect(m: Manager, now: Ms)
    requires Inv(m)
    ensures var (m1, fired) := Expire(m, now);
      && (forall x :: x in fired ==> x in m.queue)
      && (forall i, j :: 0 <= i < j < |fired| ==> Less(m.entries, fired[i], fired[j]))
      && (forall x :: x in fired ==> m.entries[x].callback.Some?)
      && m1.entries.Keys == m.entries.Keys
      && (forall x :: x in m.entries ==>
            m1.entries[x] == (if x in fired then Rearmed(m.entries[x], now) else m.entries[x]))
      && (forall x :: x in m1.queue <==> x in m.queue && (x in fired ==> m.entries[x].recurring))
      && (Rollover(m.previous, now) ==> fired == m.queue)
  {
    if m.queue != [] {
      var n := ExpiredCount(m, now);
      QueueSplits(m, n);
      RearmResult(m.entries, m.queue[n..], m.queue[..n], now);
      assert forall i :: 0 <= i < n ==> m.queue[..n][i] == m.queue[i];
      assert forall i :: n <= i < |m.queue| ==> m.queue[n..][i - n] == m.queue[i];
    }
  }

  /** On a clock that did not roll back the timers that fire are exactly those due at `now`. */
  lemma ExpiryFiresExactlyTheDue(m: Manager, now: Ms)
    requires Inv(m) && !Rollover(m.previous, now)
    ensures var (m1, fired) := Expire(m, now);
      && (forall x :: x in fired <==> x in m.queue && m.entries[x].next <= now)
      && (forall i, j :: 0 <= i < j < |fired| ==> Less(m.entries, fired[i], fired[j]))
      && (forall x :: x in fired ==> m.entries[x].callback.Some?)
      && m1.entries.Keys == m.entries.Keys
      && (forall x :: x in m.entries ==>
            m1.entries[x] == (if x in fired then Rearmed(m.entries[x], now) else m.entries[x]))
      && (forall x :: x in m1.queue <==> x in m.queue && (x in fired ==> m.entries[x].recurring))
  {
    ExpiryEffect(m, now);
    if m.queue != [] {
      var n := ExpiredCount(m, now);
      assert forall i :: 0 <= i < n ==> m.queue[..n][i] == m.queue[i];
      assert forall i :: n <= i < |m.queue| ==> m.queue[n..][i - n] == m.queue[i];
    }
  }

  /** A backward clock is taken for a rollover exactly when it lost more than an hour, or any time at all
      if the previous reading was itself under an hour (the unsigned subtraction wraps). */
  lemma RolloverIff(previous: Ms, now: Ms)
    ensures Rollover(previous, now) <==> now < previous && (previous < Hour || previous - now > Hour)
  {
  }

  /** get_next_timer() answers the wait until the least deadline, and lowers the tick. */
  lemma NextTimerIsLeast(m: Manager, now: Ms)
    requires Inv(m)
    ensures var (m1, wait) := GetNextTimer(m, now);
      && !m1.ticked && m1.entries == m.entries && m1.queue == m.queue
      && (m.queue != [] ==> forall x :: x in m.queue ==>
            now + wait <= m.entries[x].next || (wait == 0 && m.entries[m.queue[0]].next <= now))
      && (m.queue != [] && wait > 0 ==> now + wait == m.entries[m.queue[0]].next)
  {
    forall x | x in m.queue
      ensures m.entries[m.queue[0]].next <= m.entries[x].next
    {
      FirstIsLeast(m.queue, m.entries, x);
    }
  }

  // ---- runs ----

  datatype Op =
    | OpAdd(id: nat, ms: Ms, callback: nat, recurring: bool)
    | OpCancel(id: nat)
    | OpRefresh(id: nat)
    | OpReset(id: nat, ms: Ms, fromNow: bool)
    | OpGetNext
    | OpExpire

  /** A manager, the last clock reading, the deadline the last get_next_timer() saw (None: no timer), and
      the history of firings and cancellations. */
  datatype World = World(m: Manager, clock: Ms, seen: Option<nat>, fired: seq<nat>, cancelled: set<nat>)

  function NewWorld(now: Ms): World {
    World(NewManager(now), now, None, [], {})
  }

  function Front(m: Manager): Option<nat>
    requires Inv(m)
  {
    if m.queue == [] then None else Some(m.entries[m.queue[0]].next)
  }

  /** A new timer has an address of its own; the others are about timers there are. */
  predicate Known(w: World, op: Op) {
    match op
    case OpAdd(id, _, _, _) => id !in w.m.entries
    case OpCancel(id) => id in w.m.entries
    case OpRefresh(id) => id in w.m.entries
    case OpReset(id, _, _) => id in w.m.entries
    case _ => true
  }

  /** Moreover the clock does not go back and no deadline wraps. */
  ghost predicate Legal(w: World, op: Op, at: Ms) {
    && Known(w, op) && w.clock <= at
    && match op
       case OpAdd(_, ms, _, _) => at + ms < U64
       case OpRefresh(id) => at + w.m.entries[id].ms < U64
       case OpReset(_, ms, _) => at + ms < U64
       case OpExpire =>
         forall x :: x in w.m.queue && x in w.m.entries && w.m.entries[x].recurring ==> at + w.m.entries[x].ms < U64
       case _ => true
  }

  ghost function Apply(w: World, op: Op, at: Ms): World
    requires Inv(w.m) && Known(w, op)
  {
    match op
    case OpAdd(id, ms, cb, recurring) => w.(m := AddTimer(w.m, id, ms, cb, recurring, at), clock := at)
    case OpCancel(id) =>
      var (m1, ok) := Cancel(w.m, id);
      w.(m := m1, clock := at, cancelled := if ok then w.cancelled + {id} else w.cancelled)
    case OpRefresh(id) => w.(m := Refresh(w.m, id, at).0, clock := at)
    case OpReset(id, ms, fromNow) => w.(m := Reset(w.m, id, ms, fromNow, at).0, clock := at)
    case OpGetNext => w.(m := GetNextTimer(w.m, at).0, clock := at, seen := Front(w.m))
    case OpExpire =>
      var (m1, fired) := Expire(w.m, at);
      w.(m := m1, clock := at, fired := w.fired + fired)
  }

  ghost predicate PendingFrom(e: Entries, q: seq<nat>, d: nat) {
    forall x :: x in q ==> x in e && e[x].next >= d
  }

  /** Unless a wake-up was issued since, no pending timer is due before the deadline the sleeper saw. */
  ghost predicate DeadlineSeen(w: World) {
    w.m.ticked || match w.seen
                  case None => w.m.queue == []
                  case Some(d) => PendingFrom(w.m.entries, w.m.queue, d)
  }

  predicate Started(x: Entry, clock: nat) {
    x.ms <= x.next <= clock + x.ms
  }

  ghost predicate AllStarted(e: Entries, q: seq<nat>, clock: nat) {
    forall x :: x in q ==> x in e && Started(e[x], clock)
  }

  /** Every pending timer was started in the past, and so was the manager's last look at the clock. */
  ghost predicate StartedInPast(w: World) {
    w.m.previous <= w.clock && AllStarted(w.m.entries, w.m.queue, w.clock)
  }

  /** A pending timer has neither fired for good nor been cancelled; a one-shot ends in one way, once. */
  predicate EndsOnceFor(w: World, id: nat) {
    if id !in w.m.entries then multiset(w.fired)[id] == 0 && id !in w.cancelled
    else if w.m.entries[id].recurring then w.m.entries[id].callback.Some? <==> id !in w.cancelled
    else
      && multiset(w.fired)[id] <= 1
      && !(id in w.cancelled && multiset(w.fired)[id] == 1)
      && (w.m.entries[id].callback.Some? <==> multiset(w.fired)[id] == 0 && id !in w.cancelled)
  }

  ghost predicate EndsOnce(w: World) {
    forall id :: EndsOnceFor(w, id)
  }

  ghost predicate WorldInv(w: World) {
    Inv(w.m) && DeadlineSeen(w) && StartedInPast(w)
  }

  lemma ApplyKeepsInv(w: World, op: Op, at: Ms)
    requires Inv(w.m) && Known(w, op)
    ensures Inv(Apply(w, op, at).m)
  {
    match op
    case OpAdd(id, ms, cb, recurring) => AddKeepsInv(w.m, id, ms, cb, recurring, at);
    case OpCancel(id) => CancelKeepsInv(w.m, id);
    case OpRefresh(id) => RefreshKeepsInv(w.m, id, at);
    case OpReset(id, ms, fromNow) => ResetKeepsInv(w.m, id, ms, fromNow, at);
    case OpGetNext =>
    case OpExpire => ExpireKeepsInv(w.m, at);
  }

  /** The members after an insertion, and what it means that no tick was raised. */
  lemma PlaceEffect(m: Manager, id: nat)
    requires Sorted(m.queue, m.entries) && id in m.entries && id !in m.queue
    ensures forall x :: x in Place(m, id).queue <==> x == id || x in m.queue
    ensures !Place(m, id).ticked ==> m.queue != [] && m.entries[m.queue[0]].next <= m.entries[id].next
  {
    forall x ensures x in Insert(m.queue, m.entries, id) <==> x == id || x in m.queue {
      InsertMembers(m.queue, m.entries, id, x);
    }
    InsertMembers(m.queue, m.entries, id, id);
  }

  lemma WithoutEffect(m: Manager, id: nat)
    requires Inv(m)
    ensures forall x :: x in Without(m.queue, id) <==> x != id && x in m.queue
  {
    forall x ensures x in Without(m.queue, id) <==> x != id && x in m.queue {
      WithoutMembers(m.queue, m.entries, id, x);
    }
  }

  /** One timer gets new fields; the others in the set keep theirs. */
  lemma Replaced(e: Entries, q: seq<nat>, q1: seq<nat>, id: nat, x: Entry, clock: nat, clock1: nat, d: nat)
    requires clock <= clock1 && AllStarted(e, q, clock)
    requires forall y :: y in q1 ==> y == id || y in q
    requires Started(x, clock1)
    ensures AllStarted(e[id := x], q1, clock1)
    ensures PendingFrom(e, q, d) && x.next >= d ==> PendingFrom(e[id := x], q1, d)
  {
  }

  lemma AddIsSeen(w: World, id: nat, ms: Ms, cb: nat, recurring: bool, at: Ms)
    requires WorldInv(w) && Legal(w, OpAdd(id, ms, cb, recurring), at)
    ensures var w1 := Apply(w, OpAdd(id, ms, cb, recurring), at); DeadlineSeen(w1) && StartedInPast(w1)
  {
    var x := Entry(recurring, ms, Deadline(at, ms), Some(cb));
    SortedFrame(w.m.queue, w.m.entries, id, x);
    PlaceEffect(w.m.(entries := w.m.entries[id := x]), id);
  }

  lemma CancelIsSeen(w: World, id: nat, at: Ms)
    requires WorldInv(w) && Legal(w, OpCancel(id), at)
    ensures var w1 := Apply(w, OpCancel(id), at); DeadlineSeen(w1) && StartedInPast(w1)
  {
    WithoutEffect(w.m, id);
  }

  /** A timer taken out and put back with new fields, its interval running from the past. */
  lemma MovedIsSeen(w: World, id: nat, x: Entry, at: Ms)
    requires WorldInv(w) && w.clock <= at && id in w.m.entries && id in w.m.queue && Started(x, at)
    ensures var m1 := Place(w.m.(entries := w.m.entries[id := x], queue := Without(w.m.queue, id)), id);
      && AllStarted(m1.entries, m1.queue, at)
      && (w.seen.Some? && !w.m.ticked && (x.next >= w.seen.value || !m1.ticked) ==>
            PendingFrom(m1.entries, m1.queue, w.seen.value))
  {
    WithoutEffect(w.m, id);
    TakenOut(w.m, id, x);
    var m1 := w.m.(entries := w.m.entries[id := x], queue := Without(w.m.queue, id));
    PlaceEffect(m1, id);
    Replaced(w.m.entries, w.m.queue, Place(m1, id).queue, id, x, w.clock, at, w.seen.GetOr(0));
  }

  /** refresh() raises no tick; it needs none, because a started timer only moves later. */
  lemma RefreshIsSeen(w: World, id: nat, at: Ms)
    requires WorldInv(w) && Legal(w, OpRefresh(id), at)
    ensures var w1 := Apply(w, OpRefresh(id), at); DeadlineSeen(w1) && StartedInPast(w1)
  {
    var e := w.m.entries[id];
    if e.callback.Some? && id in w.m.queue {
      assert Started(e, w.clock);
      MovedIsSeen(w, id, e.(next := Deadline(at, e.ms)), at);
    }
  }

  lemma Unwrapped(next: Ms, ms: Ms)
    requires ms <= next
    ensures StartOf(next, ms) == next - ms
  {
  }

  lemma ResetIsSeen(w: World, id: nat, ms: Ms, fromNow: bool, at: Ms)
    requires WorldInv(w) && Legal(w, OpReset(id, ms, fromNow), at)
    ensures var w1 := Apply(w, OpReset(id, ms, fromNow), at); DeadlineSeen(w1) && StartedInPast(w1)
  {
    var e := w.m.entries[id];
    if !(ms == e.ms && !fromNow) && e.callback.Some? && id in w.m.queue {
      assert Started(e, w.clock);
      var start: Ms := if fromNow then at else StartOf(e.next, e.ms);
      assert start <= at by { Unwrapped(e.next, e.ms); }
      MovedIsSeen(w, id, e.(ms := ms, next := Deadline(start, ms)), at);
    }
  }

  lemma GetNextIsSeen(w: World, at: Ms)
    requires WorldInv(w) && Legal(w, OpGetNext, at)
    ensures var w1 := Apply(w, OpGetNext, at); DeadlineSeen(w1) && StartedInPast(w1)
  {
    forall x | x in w.m.queue
      ensures w.m.entries[w.m.queue[0]].next <= w.m.entries[x].next
    {
      FirstIsLeast(w.m.queue, w.m.entries, x);
    }
  }

  lemma ExpireIsSeenFor(w: World, at: Ms, x: nat)
    requires WorldInv(w) && Legal(w, OpExpire, at) && x in Apply(w, OpExpire, at).m.queue
    ensures var w1 := Apply(w, OpExpire, at);
      && x in w1.m.entries && Started(w1.m.entries[x], at)
      && (w.seen.Some? && !w.m.ticked ==> w1.m.entries[x].next >= w.seen.value)
  {
    ExpiryFiresExactlyTheDue(w.m, at);
  }

  /** A recurring timer may become the first without a tick; its new deadline is after the old one's. */
  lemma ExpireIsSeen(w: World, at: Ms)
    requires WorldInv(w) && Legal(w, OpExpire, at)
    ensures var w1 := Apply(w, OpExpire, at); DeadlineSeen(w1) && StartedInPast(w1)
  {
    var w1 := Apply(w, OpExpire, at);
    forall x | x in w1.m.queue
      ensures x in w1.m.entries && Started(w1.m.entries[x], at)
      ensures w.seen.Some? && !w.m.ticked ==> w1.m.entries[x].next >= w.seen.value
    {
      ExpireIsSeenFor(w, at, x);
    }
    ExpireKeepsTick(w.m, at);
  }

  lemma ExpireKeepsTick(m: Manager, now: Ms)
    requires Inv(m)
    ensures Expire(m, now).0.ticked == m.ticked
    ensures Expire(m, now).0.previous == m.previous || Expire(m, now).0.previous == now
    ensures m.queue == [] ==> Expire(m, now).0.queue == []
  {
  }

  lemma {:induction false} CountDistinct(q: seq<nat>, x: nat)
    requires forall i, j :: 0 <= i < j < |q| ==> q[i] != q[j]
    ensures multiset(q)[x] == (if x in q then 1 else 0)
  {
    if q != [] {
      assert q == [q[0]] + q[1..];
      CountDistinct(q[1..], x);
    }
  }

  lemma ApplyEndsOnceFor(w: World, op: Op, at: Ms, id: nat)
    requires Inv(w.m) && EndsOnceFor(w, id) && Known(w, op)
    ensures EndsOnceFor(Apply(w, op, at), id)
  {
    if op.OpExpire? {
      ExpiryEffect(w.m, at);
      var fired := Expire(w.m, at).1;
      assert forall i, j :: 0 <= i < j < |fired| ==> fired[i] != fired[j];
      CountDistinct(fired, id);
      assert multiset(w.fired + fired)[id] == multiset(w.fired)[id] + multiset(fired)[id];
    }
  }

  lemma ApplyKeepsWorld(w: World, op: Op, at: Ms)
    requires WorldInv(w) && Legal(w, op, at)
    ensures WorldInv(Apply(w, op, at))
  {
    ApplyKeepsInv(w, op, at);
    match op
    case OpAdd(id, ms, cb, recurring) => AddIsSeen(w, id, ms, cb, recurring, at);
    case OpCancel(id) => CancelIsSeen(w, id, at);
    case OpRefresh(id) => RefreshIsSeen(w, id, at);
    case OpReset(id, ms, fromNow) => ResetIsSeen(w, id, ms, fromNow, at);
    case OpGetNext => GetNextIsSeen(w, at);
    case OpExpire => ExpireIsSeen(w, at);
  }

  /** The world after a run of operations at whatever clock readings, up to the first that is about an unknown
      timer. */
  ghost function Run(w: World, ops: seq<(Op, Ms)>): (r: World)
    requires Inv(w.m)
    ensures Inv(r.m)
    decreases |ops|
  {
    if ops == [] || !Known(w, ops[0].0) then w
    else
      ApplyKeepsInv(w, ops[0].0, ops[0].1);
      Run(Apply(w, ops[0].0, ops[0].1), ops[1..])
  }

  /** The clock never goes back along the run, and no deadline wraps. */
  ghost predicate Steady(w: World, ops: seq<(Op, Ms)>)
    requires Inv(w.m)
    decreases |ops|
  {
    if ops == [] || !Known(w, ops[0].0) then true
    else
      ApplyKeepsInv(w, ops[0].0, ops[0].1);
      Legal(w, ops[0].0, ops[0].1) && Steady(Apply(w, ops[0].0, ops[0].1), ops[1..])
  }

  lemma {:induction false} RunEndsOnce(w: World, ops: seq<(Op, Ms)>)
    requires Inv(w.m) && EndsOnce(w)
    ensures Inv(Run(w, ops).m) && EndsOnce(Run(w, ops))
    decreases |ops|
  {
    if ops != [] && Known(w, ops[0].0) {
      var (op, at) := ops[0];
      ApplyKeepsInv(w, op, at);
      forall id ensures EndsOnceFor(Apply(w, op, at), id) {
        assert EndsOnceFor(w, id);
        ApplyEndsOnceFor(w, op, at, id);
      }
      RunEndsOnce(Apply(w, op, at), ops[1..]);
    }
  }

  /** Over any run at all, rollovers and wrapping deadlines included, a one-shot timer is in exactly one of three
      places: pending in the set, fired exactly once, or cancelled; and a recurring timer is pending until
      cancelled. */
  lemma OneShotEndsOnce(start: Ms, ops: seq<(Op, Ms)>)
    ensures var w := Run(NewWorld(start), ops);
      forall id :: id in w.m.entries ==>
        && (w.m.entries[id].recurring ==> (id in w.m.queue <==> id !in w.cancelled))
        && (!w.m.entries[id].recurring ==>
              || (id in w.m.queue && multiset(w.fired)[id] == 0 && id !in w.cancelled)
              || (id !in w.m.queue && multiset(w.fired)[id] == 1 && id !in w.cancelled)
              || (id !in w.m.queue && multiset(w.fired)[id] == 0 && id in w.cancelled))
  {
    RunEndsOnce(NewWorld(start), ops);
    var w := Run(NewWorld(start), ops);
    forall id | id in w.m.entries ensures EndsOnceFor(w, id) {
    }
  }

  // ---- which steps hide a deadline, on any clock ----

  /** No wake-up was issued since the last get_next_timer(), and the step puts a pending timer before the deadline
      that call saw: a refresh, or an expiry that re-arms a recurring timer, whose new deadline, wrapped to 64
      bits, is earlier. */
  ghost predicate Hides(w: World, op: Op, at: Ms)
    requires Inv(w.m) && Known(w, op)
  {
    && !w.m.ticked && w.seen.Some?
    && match op
       case OpRefresh(id) => id in w.m.queue && Deadline(at, w.m.entries[id].ms) < w.seen.value
       case OpExpire =>
         exists x :: x in Expire(w.m, at).1 && x in w.m.entries
           && w.m.entries[x].recurring && Deadline(at, w.m.entries[x].ms) < w.seen.value
       case _ => false
  }

  lemma PlacedStaysSeen(w: World, m: Manager, id: nat)
    requires DeadlineSeen(w) && Sorted(m.queue, m.entries) && id in m.entries && id !in m.queue
    requires m.ticked == w.m.ticked
    requires forall x :: x in m.queue ==>
      x in w.m.queue && x in m.entries && x in w.m.entries && m.entries[x] == w.m.entries[x]
    ensures DeadlineSeen(w.(m := Place(m, id)))
  {
    PlaceEffect(m, id);
  }

  lemma QueueIsKnown(m: Manager)
    requires Inv(m)
    ensures forall x :: x in m.queue ==> x in m.entries
  {
  }

  lemma RefreshHidesIff(w: World, id: nat, at: Ms)
    requires Inv(w.m) && DeadlineSeen(w) && Known(w, OpRefresh(id))
    ensures DeadlineSeen(Apply(w, OpRefresh(id), at)) <==> !Hides(w, OpRefresh(id), at)
  {
    var e := w.m.entries[id];
    if id in w.m.queue {
      var x := e.(next := Deadline(at, e.ms));
      WithoutEffect(w.m, id);
      TakenOut(w.m, id, x);
      PlaceEffect(w.m.(entries := w.m.entries[id := x], queue := Without(w.m.queue, id)), id);
      assert id in Refresh(w.m, id, at).0.queue;
    }
  }

  lemma ExpireHidesIff(w: World, at: Ms)
    requires Inv(w.m) && DeadlineSeen(w)
    ensures DeadlineSeen(Apply(w, OpExpire, at)) <==> !Hides(w, OpExpire, at)
  {
    ExpiryEffect(w.m, at);
    ExpireKeepsTick(w.m, at);
    var (m1, fired) := Expire(w.m, at);
    if !w.m.ticked && w.seen.Some? {
      if Hides(w, OpExpire, at) {
        var x :| x in fired && x in w.m.entries && w.m.entries[x].recurring
          && Deadline(at, w.m.entries[x].ms) < w.seen.value;
        assert x in m1.queue && m1.entries[x].next < w.seen.value;
      } else {
        forall x | x in m1.queue ensures x in m1.entries && m1.entries[x].next >= w.seen.value {
          assert x in w.m.queue && x in w.m.entries;
        }
      }
    }
  }

  lemma ResetStaysSeen(w: World, id: nat, ms: Ms, fromNow: bool, at: Ms)
    requires Inv(w.m) && DeadlineSeen(w) && Known(w, OpReset(id, ms, fromNow))
    ensures DeadlineSeen(Apply(w, OpReset(id, ms, fromNow), at))
  {
    var e := w.m.entries[id];
    if !(ms == e.ms && !fromNow) && e.callback.Some? && id in w.m.queue {
      var start: Ms := if fromNow then at else StartOf(e.next, e.ms);
      var x := e.(ms := ms, next := Deadline(start, ms));
      WithoutEffect(w.m, id);
      TakenOut(w.m, id, x);
      PlacedStaysSeen(w, w.m.(entries := w.m.entries[id := x], queue := Without(w.m.queue, id)), id);
    }
  }

  /** On any clock and with any intervals: a step that starts with the sleeper in the picture leaves it out of the
      picture exactly if it is such a refresh or expiry. */
  lemma StepHidesIff(w: World, op: Op, at: Ms)
    requires Inv(w.m) && DeadlineSeen(w) && Known(w, op)
    ensures DeadlineSeen(Apply(w, op, at)) <==> !Hides(w, op, at)
  {
    QueueIsKnown(w.m);
    match op
    case OpAdd(id, ms, cb, recurring) =>
      var x := Entry(recurring, ms, Deadline(at, ms), Some(cb));
      SortedFrame(w.m.queue, w.m.entries, id, x);
      PlacedStaysSeen(w, w.m.(entries := w.m.entries[id := x]), id);
    case OpCancel(id) => WithoutEffect(w.m, id);
    case OpRefresh(id) => RefreshHidesIff(w, id, at);
    case OpReset(id, ms, fromNow) => ResetStaysSeen(w, id, ms, fromNow, at);
    case OpGetNext =>
      forall x | x in w.m.queue ensures w.m.entries[w.m.queue[0]].next <= w.m.entries[x].next {
        FirstIsLeast(w.m.queue, w.m.entries, x);
      }
    case OpExpire => ExpireHidesIff(w, at);
  }

  ghost predicate HidesNothing(w: World, ops: seq<(Op, Ms)>)
    requires Inv(w.m)
    decreases |ops|
  {
    if ops == [] || !Known(w, ops[0].0) then true
    else
      ApplyKeepsInv(w, ops[0].0, ops[0].1);
      !Hides(w, ops[0].0, ops[0].1) && HidesNothing(Apply(w, ops[0].0, ops[0].1), ops[1..])
  }

  lemma {:induction false} RunStaysSeen(w: World, ops: seq<(Op, Ms)>)
    requires Inv(w.m) && DeadlineSeen(w) && HidesNothing(w, ops)
    ensures Inv(Run(w, ops).m) && DeadlineSeen(Run(w, ops))
    decreases |ops|
  {
    if ops != [] && Known(w, ops[0].0) {
      ApplyKeepsInv(w, ops[0].0, ops[0].1);
      StepHidesIff(w, ops[0].0, ops[0].1);
      RunStaysSeen(Apply(w, ops[0].0, ops[0].1), ops[1..]);
    }
  }

  /** On a clock that does not go back, without wrap, no step hides a deadline. */
  lemma {:induction false} SteadyHidesNothing(w: World, ops: seq<(Op, Ms)>)
    requires WorldInv(w) && Steady(w, ops)
    ensures HidesNothing(w, ops)
    decreases |ops|
  {
    if ops != [] && Known(w, ops[0].0) {
      var (op, at) := ops[0];
      ApplyKeepsWorld(w, op, at);
      StepHidesIff(w, op, at);
      SteadyHidesNothing(Apply(w, op, at), ops[1..]);
    }
  }

  /** No missed earlier deadline: over any run of add, cancel, refresh, reset, get_next_timer and expiry in which
      no step hides a deadline, and that is any run on a monotone clock without wrap, either a wake-up was issued
      since the last get_next_timer(), or every pending timer is due no earlier than the deadline that call saw. */
  lemma NoMissedDeadline(start: Ms, ops: seq<(Op, Ms)>)
    ensures Steady(NewWorld(start), ops) ==> HidesNothing(NewWorld(start), ops)
    ensures var w := Run(NewWorld(start), ops);
      HidesNothing(NewWorld(start), ops) ==>
        || w.m.ticked
        || (w.seen.None? && w.m.queue == [])
        || (w.seen.Some? && forall x :: x in w.m.queue ==> x in w.m.entries && w.m.entries[x].next >= w.seen.value)
  {
    if Steady(NewWorld(start), ops) {
      SteadyHidesNothing(NewWorld(start), ops);
    }
    if HidesNothing(NewWorld(start), ops) {
      RunStaysSeen(NewWorld(start), ops);
    }
  }

  // ---- deadlines that wrap ----

  /** add_timer(-1, ...), the keep-alive of the condition variable, is not "never": from the first
      millisecond on its deadline is already past, so get_next_timer() answers 0 and every expiry fires it
      and re-arms it in the past again. */
  lemma KeepAliveIsAlwaysDue(m: Manager, id: nat, cb: nat, now: Ms, later: Ms)
    requires Inv(m) && id !in m.entries && 1 <= now <= later
    ensures var m1 := AddTimer(m, id, U64 - 1, cb, true, now);
      && Inv(m1) && m1.entries[id].next == now - 1
      && GetNextTimer(m1, later).1 == 0
      && (!Rollover(m1.previous, later) ==>
            && id in Expire(m1, later).1
            && id in Expire(m1, later).0.entries && Expire(m1, later).0.entries[id].next == later - 1)
  {
    AddKeepsInv(m, id, U64 - 1, cb, true, now);
    var m1 := AddTimer(m, id, U64 - 1, cb, true, now);
    var e := m.entries[id := Entry(true, U64 - 1, Deadline(now, U64 - 1), Some(cb))];
    InsertMembers(m.queue, e, id, id);
    FirstIsLeast(m1.queue, m1.entries, id);
    if !Rollover(m1.previous, later) {
      KeepAliveFires(m1, id, later);
    }
  }

  lemma KeepAliveFires(m: Manager, id: nat, now: Ms)
    requires Inv(m) && !Rollover(m.previous, now) && id in m.queue && id in m.entries && 1 <= now
    requires m.entries[id].recurring && m.entries[id].ms == U64 - 1 && m.entries[id].next <= now
    ensures var (m1, fired) := Expire(m, now);
      id in fired && id in m1.entries && m1.entries[id].next == now - 1
  {
    ExpiryFiresExactlyTheDue(m, now);
  }

  /** Without a tick raised, refresh() hides an earlier deadline from the sleeper exactly when the
      timer's new deadline, wrapped to 64 bits, falls before the one the sleeper saw. */
  lemma RefreshMissesIff(w: World, id: nat, at: Ms)
    requires Inv(w.m) && DeadlineSeen(w) && !w.m.ticked && w.seen.Some?
    requires id in w.m.entries && id in w.m.queue
    ensures var m1 := Refresh(w.m, id, at).0;
      !m1.ticked && (PendingFrom(m1.entries, m1.queue, w.seen.value)
                     <==> (at + w.m.entries[id].ms) % U64 >= w.seen.value)
  {
    var e := w.m.entries[id];
    var x := e.(next := Deadline(at, e.ms));
    WithoutEffect(w.m, id);
    TakenOut(w.m, id, x);
    PlaceEffect(w.m.(entries := w.m.entries[id := x], queue := Without(w.m.queue, id)), id);
    assert id in Refresh(w.m, id, at).0.queue;
  }

  /** A run that does miss: a timer of 2^64 - 1 ms started at 0, seen, then refreshed at 5. */
  lemma RefreshCanMiss()
    ensures var m := GetNextTimer(AddTimer(NewManager(0), 7, U64 - 1, 1, false, 0), 0).0;
      var m1 := Refresh(m, 7, 5).0;
      m.queue == [7] && m.entries[7].next == U64 - 1 && m1.queue == [7] && m1.entries[7].next == 4 && !m1.ticked
  {
    AddKeepsInv(NewManager(0), 7, U64 - 1, 1, false, 0);
  }
}
