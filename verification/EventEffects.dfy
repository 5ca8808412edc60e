/**
  What each operation of the IO manager does to one descriptor, event by event (acid/common/iomanager.cpp:150-320
  and 410-450), on a table in agreement with the kernel that accepts the request: which registrations come and
  go, who is handed to the scheduler, and that nothing else changes.
 */
module EventEffects {
  import opened Options
  import opened EventLedger

  predicate Registered(s: State, fd: nat, e: Event) {
    fd < |s.contexts| && Has(s.contexts[fd].events, e)
  }

  /** Who waits for an event. */
  function WaiterOf(s: State, fd: nat, e: Event): Slot {
    if fd < |s.contexts| then SlotOf(s.contexts[fd], e) else Free
  }

  predicate SameEvent(s: State, t: State, fd: nat, e: Event) {
    (Registered(t, fd, e) <==> Registered(s, fd, e)) && WaiterOf(t, fd, e) == WaiterOf(s, fd, e)
  }

  /** An event that is gone: its bit is clear and its context reset. */
  predicate Gone(t: State, fd: nat, e: Event) {
    !Registered(t, fd, e) && WaiterOf(t, fd, e) == Free
  }

  function OtherEvent(e: Event): Event {
    if e == READ then WRITE else READ
  }

  /** Only one descriptor is touched, in the table and in the kernel. */
  ghost predicate ElsewhereSame(s: State, t: State, fd: nat) {
    && (forall i, e :: i != fd ==> SameEvent(s, t, i, e))
    && (forall i :: i != fd ==> (i in t.epoll <==> i in s.epoll) && (i in s.epoll ==> t.epoll[i] == s.epoll[i]))
  }

  /** add_event(): the waiter is registered for the event, and nothing else changes. */
  lemma AddRegisters(s: State, fd: nat, e: Event, slot: Slot)
    requires Ledger(s) && slot != Free && !Registered(s, fd, e)
    ensures var (t, o) := AddEvent(s, fd, e, slot, true);
      && o == Ok && Registered(t, fd, e) && WaiterOf(t, fd, e) == slot
      && SameEvent(s, t, fd, OtherEvent(e)) && ElsewhereSame(s, t, fd)
      && t.pending == s.pending + 1 && t.woken == s.woken
      && fd in t.epoll && Has(t.epoll[fd], e)
  {
    AddKeepsLedger(s, fd, e, slot, true);
    GrownFits(s.contexts, fd);
    assert EpollAgrees(AddEvent(s, fd, e, slot, true).0, fd);
  }

  /** del_event(): the event is gone without a wake-up. */
  lemma DelRemoves(s: State, fd: nat, e: Event)
    requires Ledger(s) && Registered(s, fd, e)
    ensures var (t, o) := DelEvent(s, fd, e, true);
      && o == Ok && Gone(t, fd, e) && SameEvent(s, t, fd, OtherEvent(e)) && ElsewhereSame(s, t, fd)
      && t.pending == s.pending - 1 && t.woken == s.woken
  {
    DelKeepsLedger(s, fd, e, true);
  }

  /** cancel_event(): the event is gone, and its waiter was handed to the scheduler. */
  lemma CancelWakes(s: State, fd: nat, e: Event)
    requires Ledger(s) && Registered(s, fd, e)
    ensures var (t, o) := CancelEvent(s, fd, e, true);
      && o == Ok && Gone(t, fd, e) && SameEvent(s, t, fd, OtherEvent(e)) && ElsewhereSame(s, t, fd)
      && t.pending == s.pending - 1 && t.woken == s.woken + multiset{Reg(fd, e, WaiterOf(s, fd, e))}
  {
    CancelKeepsLedger(s, fd, e, true);
  }

  /** The registrations of a descriptor among some events. */
  function RegsOf(s: State, fd: nat, es: Mask): multiset<Reg> {
    (if es.read && Registered(s, fd, READ) then multiset{Reg(fd, READ, WaiterOf(s, fd, READ))} else multiset{})
    + if es.write && Registered(s, fd, WRITE) then multiset{Reg(fd, WRITE, WaiterOf(s, fd, WRITE))} else multiset{}
  }

  /** A context without some of its events. */
  function Rid(c: FdContext, es: Mask): FdContext {
    FdContext(Minus(c.events, es), if es.read then Free else c.read, if es.write then Free else c.write)
  }

  lemma TriggerAllIs(s: State, fd: nat, es: Mask)
    requires fd < |s.contexts| && Within(es, s.contexts[fd].events)
    ensures var (t, o) := TriggerAll(s, fd, es);
      && o == Ok && t.contexts == s.contexts[fd := Rid(s.contexts[fd], es)] && t.epoll == s.epoll
      && t.woken == s.woken + RegsOf(s, fd, es)
  {
    var c := s.contexts[fd];
    if es.read {
      var s1 := Trigger(s, fd, READ).0;
      assert s1.contexts[fd] == Cleared(c, READ);
      assert s1.contexts[fd := Rid(c, es)] == s.contexts[fd := Rid(c, es)];
    }
  }

  /** The kernel and one context changed, no other. */
  lemma OneContextChanged(s: State, t: State, fd: nat, es: Mask)
    requires Ledger(s) && fd < |s.contexts| && Within(es, s.contexts[fd].events)
    requires t.contexts == s.contexts[fd := Rid(s.contexts[fd], es)]
    requires forall i :: i != fd ==> (i in t.epoll <==> i in s.epoll) && (i in s.epoll ==> t.epoll[i] == s.epoll[i])
    ensures ElsewhereSame(s, t, fd)
    ensures forall e :: if Has(es, e) then Gone(t, fd, e) else SameEvent(s, t, fd, e)
  {
  }

  /** cancel_all(): both events are gone, and their waiters were handed to the scheduler. */
  lemma CancelAllWakes(s: State, fd: nat)
    requires Ledger(s) && (Registered(s, fd, READ) || Registered(s, fd, WRITE))
    ensures var (t, o) := CancelAll(s, fd, true);
      && o == Ok && Gone(t, fd, READ) && Gone(t, fd, WRITE) && ElsewhereSame(s, t, fd)
      && t.woken == s.woken + RegsOf(s, fd, Mask(true, true)) && fd !in t.epoll
  {
    var es := s.contexts[fd].events;
    assert EpollAgrees(s, fd) && ContextOk(s.contexts[fd]);
    TriggerAllIs(s.(epoll := s.epoll - {fd}), fd, es);
    OneContextChanged(s, CancelAll(s, fd, true).0, fd, es);
  }

  /** The kernel's side without some events of a descriptor. */
  function Unwatched(epoll: map<nat, Mask>, fd: nat, left: Mask): map<nat, Mask> {
    if left == NONE then epoll - {fd} else epoll[fd := left]
  }

  /** The events that count as having happened. */
  function Happened(c: FdContext, reported: Mask, error: bool): Mask {
    if error then c.events else reported
  }

  lemma ReportTriggers(s: State, fd: nat, reported: Mask, error: bool)
    requires fd < |s.contexts| && Within(reported, s.contexts[fd].events)
    requires fd in s.epoll <==> s.contexts[fd].events != NONE
    ensures var c := s.contexts[fd]; var es := Happened(c, reported, error);
      IdleReport(s, fd, reported, error, true)
      == if es == NONE then (s, Ok) else TriggerAll(s.(epoll := Unwatched(s.epoll, fd, Minus(c.events, es))), fd, es)
  {
  }

  /** What a report comes to whose events are registered. */
  lemma ReportIs(s: State, fd: nat, reported: Mask, error: bool)
    requires Ledger(s) && fd < |s.contexts| && Within(reported, s.contexts[fd].events)
    ensures var (t, o) := IdleReport(s, fd, reported, error, true);
      var es := Happened(s.contexts[fd], reported, error);
      && o == Ok && ElsewhereSame(s, t, fd)
      && (forall e :: if Has(es, e) then Gone(t, fd, e) else SameEvent(s, t, fd, e))
      && t.woken == s.woken + RegsOf(s, fd, es)
      && (fd in t.epoll <==> Minus(s.contexts[fd].events, es) != NONE)
      && (fd in t.epoll ==> t.epoll[fd] == Minus(s.contexts[fd].events, es))
  {
    var c := s.contexts[fd];
    var es := Happened(c, reported, error);
    assert EpollAgrees(s, fd);
    ReportTriggers(s, fd, reported, error);
    if es != NONE {
      var u := s.(epoll := Unwatched(s.epoll, fd, Minus(c.events, es)));
      TriggerAllIs(u, fd, es);
      OneContextChanged(s, TriggerAll(u, fd, es).0, fd, es);
    }
  }

  /** A report of registered events: exactly those are gone, their waiters handed to the scheduler, and the kernel
      goes on watching the rest. */
  lemma ReportWakes(s: State, fd: nat, reported: Mask)
    requires Ledger(s) && fd < |s.contexts| && Within(reported, s.contexts[fd].events)
    ensures var (t, o) := IdleReport(s, fd, reported, false, true);
      && o == Ok && ElsewhereSame(s, t, fd)
      && (forall e :: if Has(reported, e) then Gone(t, fd, e) else SameEvent(s, t, fd, e))
      && t.woken == s.woken + RegsOf(s, fd, reported)
      && (forall e :: (fd in t.epoll && Has(t.epoll[fd], e)) <==> Registered(s, fd, e) && !Has(reported, e))
  {
    ReportIs(s, fd, reported, false);
  }

  /** An error or a hang-up: whatever of the registered events was reported with it, all of them are gone, and every
      waiter of the descriptor was handed to the scheduler. */
  lemma ErrorWakesAll(s: State, fd: nat, reported: Mask)
    requires Ledger(s) && fd < |s.contexts| && Within(reported, s.contexts[fd].events)
    ensures var (t, o) := IdleReport(s, fd, reported, true, true);
      && o == Ok && ElsewhereSame(s, t, fd) && Gone(t, fd, READ) && Gone(t, fd, WRITE) && fd !in t.epoll
      && t.woken == s.woken + RegsOf(s, fd, Mask(true, true))
  {
    ReportIs(s, fd, reported, true);
    assert ContextOk(s.contexts[fd]);
    assert SameEvent(s, IdleReport(s, fd, reported, true, true).0, fd, READ) || Has(s.contexts[fd].events, READ);
    assert SameEvent(s, IdleReport(s, fd, reported, true, true).0, fd, WRITE) || Has(s.contexts[fd].events, WRITE);
  }
}
