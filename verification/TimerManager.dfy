/**
  The timer manager (acid/common/timer.cpp): every operation as a function on the manager's state, with
  what it promises. Each operation runs under the manager's lock, so it is one step; `now` is the clock
  it reads, in unsigned 64-bit milliseconds.
 */
module TimerManagerSpec {
  import opened Options
  import opened TimerSet

  datatype Manager = Manager(
    entries: Entries,      // every timer made by this manager
    queue: seq<nat>,       // m_timers, in set order
    ticked: bool,          // m_ticked: on_timer_inserted_at_front() was called since the last get_next_timer()
    previous: Ms)         // m_previous_time

  const NoTimer: Ms := U64 - 1
  const Hour: nat := 60 * 60 * 1000

  function NewManager(now: Ms): Manager {
    Manager(map[], [], false, now)
  }

  function Deadline(start: Ms, ms: Ms): Ms {
    (start + ms) % U64
  }

  /** The instant a timer's interval runs from: m_next - m_ms, unsigned. */
  function StartOf(next: Ms, ms: Ms): Ms {
    (next + U64 - ms) % U64
  }

  /** Sorted, no timer twice, and membership is the same as having a callback. */
  ghost predicate Inv(m: Manager) {
    && Sorted(m.queue, m.entries)
    && (forall id :: id in m.entries ==> (id in m.queue <==> m.entries[id].callback.Some?))
  }

  /** add_timer(val, lock): insert and raise the tick if the timer became the first and none is raised. */
  function Place(m: Manager, id: nat): Manager {
    var q := Insert(m.queue, m.entries, id);
    m.(queue := q, ticked := m.ticked || (|q| > 0 && q[0] == id))
  }

  function AddTimer(m: Manager, id: nat, ms: Ms, callback: nat, recurring: bool, now: Ms): Manager {
    Place(m.(entries := m.entries[id := Entry(recurring, ms, Deadline(now, ms), Some(callback))]), id)
  }

  function Cancel(m: Manager, id: nat): (Manager, bool)
    requires id in m.entries
  {
    if m.entries[id].callback.None? then (m, false)
    else (m.(entries := m.entries[id := m.entries[id].(callback := None)], queue := Without(m.queue, id)), true)
  }

  /** refresh(): moves the timer without ever raising the tick. */
  function Refresh(m: Manager, id: nat, now: Ms): (Manager, bool)
    requires id in m.entries
  {
    var e := m.entries[id];
    if e.callback.None? || id !in m.queue then (m, false)
    else
      var e1 := m.entries[id := e.(next := Deadline(now, e.ms))];
      (m.(entries := e1, queue := Insert(Without(m.queue, id), e1, id)), true)
  }

  /** reset(): an unchanged interval without from_now returns true at once, even on a spent timer. */
  function Reset(m: Manager, id: nat, ms: Ms, fromNow: bool, now: Ms): (Manager, bool)
    requires id in m.entries
  {
    var e := m.entries[id];
    if ms == e.ms && !fromNow then (m, true)
    else if e.callback.None? || id !in m.queue then (m, false)
    else
      var start: Ms := if fromNow then now else StartOf(e.next, e.ms);
      var e1 := m.entries[id := e.(ms := ms, next := Deadline(start, ms))];
      (Place(m.(entries := e1, queue := Without(m.queue, id)), id), true)
  }

  function GetNextTimer(m: Manager, now: Ms): (Manager, Ms)
    requires Inv(m)
  {
    (m.(ticked := false),
     if m.queue == [] then NoTimer
     else if now >= m.entries[m.queue[0]].next then 0 else m.entries[m.queue[0]].next - now)
  }

  /** detect_clock_rollover(): the subtraction of an hour is unsigned. */
  predicate Rollover(previous: Ms, now: Ms) {
    now < previous && now < (previous + U64 - Hour) % U64
  }

  /** The loop over the expired timers: recurring ones go back at now + ms, the others are spent. */
  function Rearm(e: Entries, q: seq<nat>, fired: seq<nat>, now: Ms): (Entries, seq<nat>)
    requires forall i :: 0 <= i < |fired| ==> fired[i] in e
    decreases |fired|
  {
    if fired == [] then (e, q)
    else
      var id := fired[0];
      if e[id].recurring then
        var e1 := e[id := e[id].(next := Deadline(now, e[id].ms))];
        Rearm(e1, Insert(q, e1, id), fired[1..], now)
      else
        Rearm(e[id := e[id].(callback := None)], q, fired[1..], now)
  }

  /** How many timers list_expired_callback() takes off the front. */
  function ExpiredCount(m: Manager, now: Ms): (n: nat)
    requires Inv(m)
    ensures n <= |m.queue|
  {
    if Rollover(m.previous, now) then |m.queue| else DueCount(m.queue, m.entries, now)
  }

  /** list_expired_callback(), with the timers it fires in order. */
  function Expire(m: Manager, now: Ms): (Manager, seq<nat>)
    requires Inv(m)
  {
    if m.queue == [] then (m, [])
    else
      var n := ExpiredCount(m, now);
      var (e, q) := Rearm(m.entries, m.queue[n..], m.queue[..n], now);
      (m.(entries := e, queue := q, previous := now), m.queue[..n])
  }

  // ---- the set stays sorted and complete ----

  lemma PlaceKeepsInv(m: Manager, id: nat)
    requires Sorted(m.queue, m.entries) && id in m.entries && id !in m.queue
    requires forall x :: x in m.entries && x != id ==> (x in m.queue <==> m.entries[x].callback.Some?)
    requires m.entries[id].callback.Some?
    ensures Inv(Place(m, id))
  {
    InsertSorted(m.queue, m.entries, id);
    forall x | x in m.entries
      ensures x in Insert(m.queue, m.entries, id) <==> m.entries[x].callback.Some?
    {
      InsertMembers(m.queue, m.entries, id, x);
    }
  }

  lemma AddKeepsInv(m: Manager, id: nat, ms: Ms, callback: nat, recurring: bool, now: Ms)
    requires Inv(m) && id !in m.entries
    ensures Inv(AddTimer(m, id, ms, callback, recurring, now))
  {
    var x := Entry(recurring, ms, Deadline(now, ms), Some(callback));
    SortedFrame(m.queue, m.entries, id, x);
    PlaceKeepsInv(m.(entries := m.entries[id := x]), id);
  }

  /** Taking a timer out and changing its fields leaves the rest of the set sorted and complete. */
  lemma TakenOut(m: Manager, id: nat, x: Entry)
    requires Inv(m) && id in m.entries
    ensures var e := m.entries[id := x]; var q := Without(m.queue, id);
      && Sorted(q, e) && id !in q
      && (forall y :: y in e && y != id ==> (y in q <==> e[y].callback.Some?))
  {
    WithoutSorted(m.queue, m.entries, id);
    forall y ensures y in Without(m.queue, id) <==> y != id && y in m.queue {
      WithoutMembers(m.queue, m.entries, id, y);
    }
    SortedFrame(Without(m.queue, id), m.entries, id, x);
  }

  lemma CancelKeepsInv(m: Manager, id: nat)
    requires Inv(m) && id in m.entries
    ensures Inv(Cancel(m, id).0)
  {
    TakenOut(m, id, m.entries[id].(callback := None));
  }

  lemma RefreshKeepsInv(m: Manager, id: nat, now: Ms)
    requires Inv(m) && id in m.entries
    ensures Inv(Refresh(m, id, now).0)
  {
    var e := m.entries[id];
    if e.callback.Some? && id in m.queue {
      var x := e.(next := Deadline(now, e.ms));
      TakenOut(m, id, x);
      PlaceKeepsInv(m.(entries := m.entries[id := x], queue := Without(m.queue, id)), id);
    }
  }

  lemma ResetKeepsInv(m: Manager, id: nat, ms: Ms, fromNow: bool, now: Ms)
    requires Inv(m) && id in m.entries
    ensures Inv(Reset(m, id, ms, fromNow, now).0)
  {
    var e := m.entries[id];
    if !(ms == e.ms && !fromNow) && e.callback.Some? && id in m.queue {
      var start: Ms := if fromNow then now else StartOf(e.next, e.ms);
      var x := e.(ms := ms, next := Deadline(start, ms));
      TakenOut(m, id, x);
      PlaceKeepsInv(m.(entries := m.entries[id := x], queue := Without(m.queue, id)), id);
    }
  }

  /** What the re-arming loop leaves behind, timer by timer. */
  function Rearmed(x: Entry, now: Ms): Entry {
    if x.recurring then x.(next := Deadline(now, x.ms)) else x.(callback := None)
  }

  lemma RearmHead(e: Entries, q: seq<nat>, fired: seq<nat>, now: Ms)
    requires forall i :: 0 <= i < |fired| ==> fired[i] in e
    requires fired != []
    ensures var e1 := e[fired[0] := Rearmed(e[fired[0]], now)];
      Rearm(e, q, fired, now) ==
      Rearm(e1, if e[fired[0]].recurring then Insert(q, e1, fired[0]) else q, fired[1..], now)
  {
  }

  lemma {:induction false} RearmResult(e: Entries, q: seq<nat>, fired: seq<nat>, now: Ms)
    requires Sorted(q, e)
    requires forall i :: 0 <= i < |fired| ==> fired[i] in e && fired[i] !in q
    requires forall i, j :: 0 <= i < j < |fired| ==> fired[i] != fired[j]
    ensures var (e1, q1) := Rearm(e, q, fired, now);
      && Sorted(q1, e1)
      && e1.Keys == e.Keys
      && (forall x :: x in e ==> e1[x] == (if x in fired then Rearmed(e[x], now) else e[x]))
      && (forall x :: x in q1 <==> x in q || (x in fired && e[x].recurring))
    decreases |fired|
  {
    if fired != [] {
      var id := fired[0];
      var e1 := e[id := Rearmed(e[id], now)];
      var q1 := if e[id].recurring then Insert(q, e1, id) else q;
      RearmOne(e, q, id, now);
      RearmHead(e, q, fired, now);
      assert forall i :: 0 <= i < |fired| - 1 ==> fired[1..][i] == fired[i + 1];
      RearmResult(e1, q1, fired[1..], now);
      assert forall x :: x in fired <==> x == id || x in fired[1..];
    }
  }

  lemma RearmOne(e: Entries, q: seq<nat>, id: nat, now: Ms)
    requires Sorted(q, e) && id in e && id !in q
    ensures var e1 := e[id := Rearmed(e[id], now)];
      var q1 := if e[id].recurring then Insert(q, e1, id) else q;
      Sorted(q1, e1) && forall x :: x in q1 <==> x in q || (x == id && e[id].recurring)
  {
    var e1 := e[id := Rearmed(e[id], now)];
    SortedFrame(q, e, id, Rearmed(e[id], now));
    if e[id].recurring {
      InsertSorted(q, e1, id);
      forall x ensures x in Insert(q, e1, id) <==> x == id || x in q {
        InsertMembers(q, e1, id, x);
      }
    }
  }

  lemma ExpireKeepsInv(m: Manager, now: Ms)
    requires Inv(m)
    ensures Inv(Expire(m, now).0)
  {
    if m.queue != [] {
      var n := ExpiredCount(m, now);
      QueueSplits(m, n);
      RearmResult(m.entries, m.queue[n..], m.queue[..n], now);
    }
  }

  lemma QueueSplits(m: Manager, n: nat)
    requires Inv(m) && n <= |m.queue|
    ensures Sorted(m.queue[n..], m.entries)
    ensures forall i, j :: 0 <= i < j < n ==> m.queue[..n][i] != m.queue[..n][j]
    ensures forall i :: 0 <= i < n ==> m.queue[..n][i] in m.entries && m.queue[..n][i] !in m.queue[n..]
    ensures forall x :: x in m.queue <==> x in m.queue[..n] || x in m.queue[n..]
  {
    assert forall i, j :: 0 <= i < j < |m.queue| ==> Less(m.entries, m.queue[i], m.queue[j]);
    assert m.queue == m.queue[..n] + m.queue[n..];
  }
}
