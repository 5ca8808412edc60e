/**
  Timers and their manager as the objects of the source (acid/common/timer.h, timer.cpp). The ordered set
  holds addresses, as std::set<Timer::ptr> does; `heap` is the memory those addresses point into.
 */
module TimerObjects {
  import opened Options
  import opened TimerSet
  import opened TimerManagerSpec

  class Timer {
    const address: nat
    const m_recurring: bool
    var m_ms: Ms
    var m_next: Ms
    var m_callback: Option<nat>

    constructor (address: nat, recurring: bool, ms: Ms, next: Ms, callback: Option<nat>)
      ensures this.address == address && View() == Entry(recurring, ms, next, callback)
    {
      this.address, m_recurring, m_ms, m_next, m_callback := address, recurring, ms, next, callback;
    }

    function View(): Entry
      reads this
    {
      Entry(m_recurring, m_ms, m_next, m_callback)
    }
  }

  class TimerManager {
    var heap: map<nat, Timer>
    var m_timers: seq<nat>
    var m_ticked: bool
    var m_previous_time: Ms
    var wakeups: nat               // calls of on_timer_inserted_at_front()

    ghost predicate Valid()
      reads this, heap.Values
    {
      Placed() && Inv(View())
    }

    ghost predicate Placed()
      reads this, heap.Values
    {
      forall a :: a in heap ==> heap[a].address == a
    }

    function Fields(): Entries
      reads this, heap.Values
    {
      map a | a in heap :: heap[a].View()
    }

    ghost function View(): Manager
      reads this, heap.Values
    {
      Manager(Fields(), m_timers, m_ticked, m_previous_time)
    }

    constructor (now: Ms)
      ensures Valid() && View() == NewManager(now) && wakeups == 0
    {
      heap, m_timers, m_ticked, m_previous_time, wakeups := map[], [], false, now, 0;
    }

    /** m_timers.insert(val) */
    method InsertTimer(val: Timer)
      requires Placed()
      modifies this`m_timers
      ensures Placed() && View() == old(View()).(queue := Insert(old(m_timers), old(Fields()), val.address))
    {
      m_timers := Insert(m_timers, Fields(), val.address);
      assert Fields() == old(Fields());
    }

    /** add_timer(val, lock) */
    method PlaceTimer(val: Timer)
      requires Placed() && val.address in heap && heap[val.address] == val
      modifies this
      ensures heap == old(heap) && Placed() && View() == Place(old(View()), val.address)
      ensures wakeups == old(wakeups) + (if m_ticked && !old(m_ticked) then 1 else 0)
    {
      InsertTimer(val);
      var atFront := m_timers != [] && m_timers[0] == val.address && !m_ticked;
      if atFront {
        m_ticked := true;
        wakeups := wakeups + 1;
      }
      assert Fields() == old(Fields());
    }

    method AddTimer(address: nat, ms: Ms, callback: nat, recurring: bool, now: Ms) returns (timer: Timer)
      requires Valid() && address !in heap
      modifies this
      ensures fresh(timer) && heap == old(heap)[address := timer] && Valid()
      ensures View() == TimerManagerSpec.AddTimer(old(View()), address, ms, callback, recurring, now)
      ensures timer.m_next == (now + ms) % U64 && timer.m_ms == ms && timer.m_recurring == recurring
      ensures timer.m_callback == Some(callback) && address in m_timers
      ensures m_ticked <==> old(m_ticked) || m_timers[0] == address
      ensures wakeups == old(wakeups) + (if m_ticked && !old(m_ticked) then 1 else 0)
    {
      AddKeepsInv(View(), address, ms, callback, recurring, now);
      timer := new Timer(address, recurring, ms, Deadline(now, ms), Some(callback));
      heap := heap[address := timer];
      assert Fields() == old(Fields())[address := timer.View()];
      PlaceTimer(timer);
    }

    /** After one timer's fields changed, the manager's table differs at that address only. */
    twostate lemma OneChanged(t: Timer)
      requires old(Placed()) && heap == old(heap) && t.address in heap && heap[t.address] == t
      requires forall a :: a in heap && heap[a] != t ==> unchanged(heap[a])
      ensures Fields() == old(Fields())[t.address := t.View()]
      ensures Placed()
    {
    }

    method Cancel(t: Timer) returns (ok: bool)
      requires Valid() && t.address in heap && heap[t.address] == t
      modifies this, t
      ensures heap == old(heap) && Valid()
      ensures (View(), ok) == TimerManagerSpec.Cancel(old(View()), t.address)
      ensures (ok <==> t.address in old(m_timers)) && t.m_callback == None && t.address !in m_timers
    {
      CancelKeepsInv(View(), t.address);
      if t.m_callback.Some? {
        t.m_callback := None;
        m_timers := Without(m_timers, t.address);
        OneChanged(t);
        return true;
      }
      return false;
    }

    /** Takes a timer out of the set and gives it a new key, as refresh() and reset() do. */
    method Rekey(t: Timer, ms: Ms, next: Ms)
      requires Placed() && t.address in heap && heap[t.address] == t
      modifies this`m_timers, t
      ensures Placed() && t.View() == old(t.View()).(ms := ms, next := next)
      ensures View() == old(View()).(entries := old(Fields())[t.address := t.View()],
                                     queue := Without(old(m_timers), t.address))
    {
      m_timers := Without(m_timers, t.address);
      t.m_ms := ms;
      t.m_next := next;
      OneChanged(t);
    }

    method Refresh(t: Timer, now: Ms) returns (ok: bool)
      requires Valid() && t.address in heap && heap[t.address] == t
      modifies this, t
      ensures heap == old(heap) && Valid()
      ensures (View(), ok) == TimerManagerSpec.Refresh(old(View()), t.address, now)
      ensures ok <==> t.address in old(m_timers)
      ensures ok ==> t.m_next == (now + t.m_ms) % U64 && t.m_ms == old(t.m_ms) && t.address in m_timers
      ensures !ok ==> View() == old(View())
    {
      RefreshKeepsInv(View(), t.address, now);
      if t.m_callback.None? {
        return false;
      }
      if t.address !in m_timers {
        return false;
      }
      Delay(t, Deadline(now, t.m_ms));
      return true;
    }

    /** A pending timer out of the set and back with another deadline, the tick left alone. */
    method Delay(t: Timer, next: Ms)
      requires Valid() && t.address in heap && heap[t.address] == t
      modifies this`m_timers, t
      ensures Placed() && t.address in m_timers && t.View() == old(t.View()).(next := next)
      ensures View() == old(View()).(
        entries := old(Fields())[t.address := t.View()],
        queue := Insert(Without(old(m_timers), t.address), old(Fields())[t.address := t.View()], t.address))
    {
      Rekey(t, t.m_ms, next);
      InsertMembers(m_timers, Fields(), t.address, t.address);
      InsertTimer(t);
    }

    method Reset(t: Timer, ms: Ms, fromNow: bool, now: Ms) returns (ok: bool)
      requires Valid() && t.address in heap && heap[t.address] == t
      modifies this, t
      ensures heap == old(heap) && Valid()
      ensures (View(), ok) == TimerManagerSpec.Reset(old(View()), t.address, ms, fromNow, now)
      ensures ok <==> t.address in old(m_timers) || (ms == old(t.m_ms) && !fromNow)
      ensures t.address in old(m_timers) && fromNow ==> t.m_ms == ms && t.m_next == (now + ms) % U64
      ensures t.address in old(m_timers) && !fromNow ==>
        t.m_ms == ms && (t.m_next + old(t.m_ms)) % U64 == (old(t.m_next) + ms) % U64
      ensures t.address !in old(m_timers) ==> View() == old(View())
    {
      ResetKeepsInv(View(), t.address, ms, fromNow, now);
      SameStart(t.m_next, t.m_ms, ms);
      if ms == t.m_ms && !fromNow {
        return true;
      }
      if t.m_callback.None? {
        return false;
      }
      if t.address !in m_timers {
        return false;
      }
      MoveTo(t, ms, if fromNow then now else StartOf(t.m_next, t.m_ms));
      return true;
    }

    /** A pending timer out of the set and back, with another interval and start. */
    method MoveTo(t: Timer, ms: Ms, start: Ms)
      requires Valid() && t.address in heap && heap[t.address] == t
      modifies this, t
      ensures heap == old(heap) && Placed() && t.address in m_timers
      ensures t.View() == old(t.View()).(ms := ms, next := Deadline(start, ms))
      ensures View() == Place(old(View()).(entries := old(Fields())[t.address := t.View()],
                                           queue := Without(old(m_timers), t.address)), t.address)
    {
      Rekey(t, ms, Deadline(start, ms));
      InsertMembers(m_timers, Fields(), t.address, t.address);
      PlaceTimer(t);
    }

    /** The new deadline less the new interval is the old one less the old, modulo 2^64. */
    static lemma SameStart(next: Ms, ms: Ms, ms': Ms)
      ensures (Deadline(StartOf(next, ms), ms') + ms) % U64 == (next + ms') % U64
    {
    }

    method GetNextTimer(now: Ms) returns (wait: Ms)
      requires Valid()
      modifies this
      ensures heap == old(heap) && Valid()
      ensures (View(), wait) == TimerManagerSpec.GetNextTimer(old(View()), now)
      ensures !m_ticked && m_timers == old(m_timers)
      ensures if m_timers == [] then wait == NoTimer
              else m_timers[0] in heap && wait == if now >= heap[m_timers[0]].m_next then 0 else heap[m_timers[0]].m_next - now
    {
      m_ticked := false;
      assert Fields() == old(Fields());
      if m_timers == [] {
        return NoTimer;
      }
      var next := heap[m_timers[0]];
      if now >= next.m_next {
        return 0;
      }
      return next.m_next - now;
    }

    method DetectClockRollover(now: Ms) returns (rollover: bool)
      requires Placed()
      modifies this`m_previous_time
      ensures Placed() && View() == old(View()).(previous := now)
      ensures rollover <==> Rollover(old(m_previous_time), now)
    {
      rollover := now < m_previous_time && now < (m_previous_time + U64 - Hour) % U64;
      m_previous_time := now;
      assert Fields() == old(Fields());
    }

    /** lower_bound of a probe timer (now, probe), then past every timer due at `now` exactly: wherever
        the probe's address falls, this is the number of due timers. */
    method PastDue(now: Ms, probe: nat) returns (it: nat)
      requires Valid()
      ensures it == DueCount(m_timers, Fields(), now)
    {
      it := 0;
      while it < |m_timers| && (heap[m_timers[it]].m_next < now || (heap[m_timers[it]].m_next == now && m_timers[it] < probe))
        invariant it <= |m_timers|
        invariant forall i :: 0 <= i < it ==> heap[m_timers[i]].m_next <= now
      {
        it := it + 1;
      }
      while it < |m_timers| && heap[m_timers[it]].m_next == now
        invariant it <= |m_timers|
        invariant forall i :: 0 <= i < it ==> heap[m_timers[i]].m_next <= now
        invariant it < |m_timers| ==> heap[m_timers[it]].m_next >= now
      {
        it := it + 1;
        assert it < |m_timers| ==> Less(Fields(), m_timers[it - 1], m_timers[it]);
      }
      DueCountIs(m_timers, Fields(), now, it);
    }

    /** The body of the loop over the expired timers. */
    method FireOne(timer: Timer, now: Ms) returns (callback: Option<nat>)
      requires Placed() && timer.address in heap && heap[timer.address] == timer
      modifies this`m_timers, timer
      ensures Placed() && callback == old(timer.m_callback)
      ensures View() == old(View()).(
        entries := old(Fields())[timer.address := Rearmed(old(timer.View()), now)],
        queue := if timer.m_recurring
                 then Insert(old(m_timers), old(Fields())[timer.address := Rearmed(old(timer.View()), now)], timer.address)
                 else old(m_timers))
    {
      callback := timer.m_callback;
      if timer.m_recurring {
        timer.m_next := Deadline(now, timer.m_ms);
        OneChanged(timer);
        InsertTimer(timer);
      } else {
        timer.m_callback := None;
        OneChanged(timer);
      }
    }

    /** The loop over the expired timers, already taken out of the set. */
    method FireAll(expired: seq<nat>, now: Ms) returns (callbacks: seq<Option<nat>>)
      requires Placed()
      requires forall i :: 0 <= i < |expired| ==> expired[i] in heap
      requires forall i, j :: 0 <= i < j < |expired| ==> expired[i] != expired[j]
      modifies this`m_timers, heap.Values
      ensures Placed()
      ensures var (e, q) := Rearm(old(Fields()), old(m_timers), expired, now);
        View() == old(View()).(entries := e, queue := q)
      ensures |callbacks| == |expired|
      ensures forall i :: 0 <= i < |expired| ==> callbacks[i] == old(Fields())[expired[i]].callback
    {
      callbacks := [];
      ghost var e0, q0 := Fields(), m_timers;
      var k := 0;
      assert expired[0..] == expired;
      while k < |expired|
        invariant k <= |expired| && Placed()
        invariant forall i :: k <= i < |expired| ==> Fields()[expired[i]] == e0[expired[i]]
        invariant Rearm(Fields(), m_timers, expired[k..], now) == Rearm(e0, q0, expired, now)
        invariant |callbacks| == k
        invariant forall i :: 0 <= i < k ==> callbacks[i] == e0[expired[i]].callback
      {
        var callback := FireNext(expired, k, now, e0);
        callbacks := callbacks + [callback];
        k := k + 1;
      }
    }

    method FireNext(expired: seq<nat>, k: nat, now: Ms, ghost e0: Entries) returns (callback: Option<nat>)
      requires Placed() && k < |expired|
      requires forall i :: 0 <= i < |expired| ==> expired[i] in heap
      requires forall i, j :: 0 <= i < j < |expired| ==> expired[i] != expired[j]
      requires e0.Keys == heap.Keys
      requires forall i :: k <= i < |expired| ==> Fields()[expired[i]] == e0[expired[i]]
      modifies this`m_timers, heap.Values
      ensures Placed() && callback == e0[expired[k]].callback
      ensures forall i :: k < i < |expired| ==> Fields()[expired[i]] == e0[expired[i]]
      ensures Rearm(Fields(), m_timers, expired[k + 1..], now)
        == Rearm(old(Fields()), old(m_timers), expired[k..], now)
    {
      RearmHead(Fields(), m_timers, expired[k..], now);
      callback := FireOne(heap[expired[k]], now);
      assert expired[k..][1..] == expired[k + 1..];
    }

    /** Up to the erase: reads the clock for a rollover and takes the expired timers out of the set. */
    method TakeExpired(now: Ms, probe: nat) returns (expired: seq<nat>)
      requires Valid() && m_timers != []
      modifies this`m_timers, this`m_previous_time
      ensures Placed()
      ensures var n := ExpiredCount(old(View()), now);
        && View() == old(View()).(previous := now, queue := old(m_timers)[n..])
        && expired == old(m_timers)[..n]
    {
      ghost var e := Fields();
      var rollover := DetectClockRollover(now);
      if !rollover && heap[m_timers[0]].m_next > now {
        DueCountIs(m_timers, e, now, 0);
        return [];
      }
      var it := |m_timers|;
      if !rollover {
        it := PastDue(now, probe);
      }
      expired := m_timers[..it];
      m_timers := m_timers[it..];
      assert Fields() == e;
    }

    method ListExpiredCallback(now: Ms, probe: nat) returns (callbacks: seq<Option<nat>>)
      requires Valid()
      modifies this, heap.Values
      ensures heap == old(heap) && Valid()
      ensures View() == Expire(old(View()), now).0
      ensures var fired := Expire(old(View()), now).1;
        && |callbacks| == |fired|
        && forall i :: 0 <= i < |fired| ==> callbacks[i] == old(Fields())[fired[i]].callback
    {
      if m_timers == [] {
        return [];
      }
      ghost var m := View();
      ExpireKeepsInv(m, now);
      QueueSplits(m, ExpiredCount(m, now));
      var expired := TakeExpired(now, probe);
      assert Fields() == m.entries;
      callbacks := FireAll(expired, now);
    }
  }
}
