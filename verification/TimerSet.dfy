/**
  The ordered set of timers (acid/common/timer.cpp): timers sorted by deadline, then by address.

  A timer is known by its address (a number). Deadlines are unsigned 64-bit milliseconds that wrap.
 */
module TimerSet {
  import opened Options

  const U64: nat := 0x1_0000_0000_0000_0000

  /** uint64_t milliseconds */
  type Ms = t: nat | t < U64

  /** The fields of one timer; `callback` is None once the timer is cancelled or spent. */
  datatype Entry = Entry(recurring: bool, ms: Ms, next: Ms, callback: Option<nat>)

  type Entries = map<nat, Entry>

  /** Comparator::operator() on two live timers. */
  predicate Less(e: Entries, a: nat, b: nat) {
    a in e && b in e && (e[a].next < e[b].next || (e[a].next == e[b].next && a < b))
  }

  predicate Sorted(q: seq<nat>, e: Entries) {
    && (forall i :: 0 <= i < |q| ==> q[i] in e)
    && (forall i, j :: 0 <= i < j < |q| ==> Less(e, q[i], q[j]))
  }

  /** set::insert */
  function Insert(q: seq<nat>, e: Entries, id: nat): seq<nat> {
    if q == [] then [id]
    else if Less(e, id, q[0]) then [id] + q
    else [q[0]] + Insert(q[1..], e, id)
  }

  /** set::erase(find(id)) */
  function Without(q: seq<nat>, id: nat): seq<nat> {
    if q == [] then [] else if q[0] == id then q[1..] else [q[0]] + Without(q[1..], id)
  }

  lemma {:induction false} InsertMembers(q: seq<nat>, e: Entries, id: nat, x: nat)
    ensures x in Insert(q, e, id) <==> x == id || x in q
    ensures |Insert(q, e, id)| == |q| + 1
    ensures Insert(q, e, id)[0] == (if q == [] || Less(e, id, q[0]) then id else q[0])
  {
    if q != [] && !Less(e, id, q[0]) {
      InsertMembers(q[1..], e, id, x);
    }
  }

  lemma {:induction false} InsertSorted(q: seq<nat>, e: Entries, id: nat)
    requires Sorted(q, e) && id in e && id !in q
    ensures Sorted(Insert(q, e, id), e)
  {
    if q != [] && !Less(e, id, q[0]) {
      InsertSorted(q[1..], e, id);
      var r := Insert(q[1..], e, id);
      forall i | 0 <= i < |r| ensures Less(e, q[0], r[i]) {
        InsertMembers(q[1..], e, id, r[i]);
      }
    }
  }

  lemma {:induction false} WithoutMembers(q: seq<nat>, e: Entries, id: nat, x: nat)
    requires Sorted(q, e)
    ensures x in Without(q, id) <==> x != id && x in q
  {
    if q != [] {
      if q[0] != id {
        WithoutMembers(q[1..], e, id, x);
      } else {
        assert id !in q[1..];
      }
    }
  }

  lemma {:induction false} WithoutSorted(q: seq<nat>, e: Entries, id: nat)
    requires Sorted(q, e)
    ensures Sorted(Without(q, id), e)
  {
    if q != [] && q[0] != id {
      WithoutSorted(q[1..], e, id);
      var r := Without(q[1..], id);
      forall i | 0 <= i < |r| ensures Less(e, q[0], r[i]) {
        WithoutMembers(q[1..], e, id, r[i]);
      }
    }
  }

  /** Changing the key of a timer that is not in the set leaves the set sorted. */
  lemma SortedFrame(q: seq<nat>, e: Entries, id: nat, x: Entry)
    requires Sorted(q, e) && id !in q
    ensures Sorted(q, e[id := x])
  {
  }

  /** In a sorted set the first timer has the least deadline. */
  lemma FirstIsLeast(q: seq<nat>, e: Entries, x: nat)
    requires Sorted(q, e) && x in q
    ensures e[q[0]].next <= e[x].next
  {
    var i :| 0 <= i < |q| && q[i] == x;
    if i > 0 {
      assert Less(e, q[0], q[i]);
    }
  }

  /** How many timers at the front are due at `now`. */
  function DueCount(q: seq<nat>, e: Entries, now: nat): (n: nat)
    requires Sorted(q, e)
    ensures n <= |q|
    ensures forall i :: 0 <= i < n ==> e[q[i]].next <= now
    ensures forall i :: n <= i < |q| ==> e[q[i]].next > now
  {
    if q == [] then 0
    else if e[q[0]].next <= now then 1 + DueCount(q[1..], e, now)
    else
      assert forall i :: 0 < i < |q| ==> Less(e, q[0], q[i]);
      0
  }

  lemma {:induction false} DueCountIs(q: seq<nat>, e: Entries, now: nat, n: nat)
    requires Sorted(q, e) && n <= |q|
    requires forall i :: 0 <= i < n ==> e[q[i]].next <= now
    requires n < |q| ==> e[q[n]].next > now
    ensures DueCount(q, e, now) == n
  {
    if n > 0 {
      DueCountIs(q[1..], e, now, n - 1);
    }
  }
}
