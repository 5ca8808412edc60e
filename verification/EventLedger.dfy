/**
  The IO manager's one-shot event table (acid/common/iomanager.cpp): registered events, their contexts,
  the pending counter and the kernel's interest set, step by step. Each function below is one critical
  section on one descriptor; `kernel` says whether epoll_ctl would accept a legal request.
 */
module EventLedger {
  import opened Options

  datatype Event = READ | WRITE

  /** A set of events: the two bits of the source's mask. */
  datatype Mask = Mask(read: bool, write: bool)

  const NONE := Mask(false, false)

  predicate Has(m: Mask, e: Event) {
    if e == READ then m.read else m.write
  }

  function With(m: Mask, e: Event): Mask {
    if e == READ then m.(read := true) else m.(write := true)
  }

  function Minus(m: Mask, n: Mask): Mask {
    Mask(m.read && !n.read, m.write && !n.write)
  }

  function And(m: Mask, n: Mask): Mask {
    Mask(m.read && n.read, m.write && n.write)
  }

  function Or(m: Mask, n: Mask): Mask {
    Mask(m.read || n.read, m.write || n.write)
  }

  predicate Within(m: Mask, n: Mask) {
    (m.read ==> n.read) && (m.write ==> n.write)
  }

  /** What an event context holds: nothing, a parked fiber, or a callback. `park` numbers registrations. */
  datatype Slot = Free | FiberSlot(f: nat, park: nat) | CallbackSlot(c: nat, park: nat)

  datatype FdContext = FdContext(events: Mask, read: Slot, write: Slot)

  datatype Reg = Reg(fd: nat, event: Event, slot: Slot)

  datatype State = State(
    contexts: seq<FdContext>,           // m_fd_contexts
    epoll: map<nat, Mask>,              // the kernel's interest set
    pending: int,                       // m_pending_event_count
    added: multiset<Reg>,               // history of successful add_event() calls
    deleted: multiset<Reg>,             // history: removed without a wake-up
    woken: multiset<Reg>)               // history: handed to the scheduler

  /** Abort: an assertion of the code fails. */
  datatype Outcome = Ok | Rejected | Abort

  const Empty := FdContext(NONE, Free, Free)

  function Init(): State {
    State(seq(32, i => Empty), map[], 0, multiset{}, multiset{}, multiset{})
  }

  function SlotOf(c: FdContext, e: Event): Slot {
    if e == READ then c.read else c.write
  }

  /** The context with event `e` registered for `slot`. */
  function Armed(c: FdContext, e: Event, slot: Slot): FdContext {
    if e == READ then c.(events := With(c.events, e), read := slot) else c.(events := With(c.events, e), write := slot)
  }

  /** The context with event `e` dropped and its slot reset. */
  function Cleared(c: FdContext, e: Event): FdContext {
    if e == READ then c.(events := c.events.(read := false), read := Free)
    else c.(events := c.events.(write := false), write := Free)
  }

  // ---- the kernel ----

  datatype CtlOp = ADD | MOD | DEL

  /** epoll_ctl: ADD wants an unknown descriptor, MOD and DEL a known one. */
  predicate CtlLegal(epoll: map<nat, Mask>, op: CtlOp, fd: nat) {
    (op == ADD) == (fd !in epoll)
  }

  function Ctl(epoll: map<nat, Mask>, op: CtlOp, fd: nat, mask: Mask, kernel: bool): Option<map<nat, Mask>> {
    if !kernel || !CtlLegal(epoll, op, fd) then None
    else if op == DEL then Some(epoll - {fd})
    else Some(epoll[fd := mask])
  }

  function AddOp(events: Mask): CtlOp {
    if events == NONE then ADD else MOD
  }

  function LeaveOp(left: Mask): CtlOp {
    if left == NONE then DEL else MOD
  }

  // ---- context_resize ----

  /** context_resize(size): grows with empty contexts, or cuts the table short. */
  function Resize(contexts: seq<FdContext>, size: nat): seq<FdContext> {
    if size <= |contexts| then contexts[..size] else contexts + seq(size - |contexts|, i => Empty)
  }

  function Grown(contexts: seq<FdContext>, fd: nat): seq<FdContext> {
    if |contexts| > fd then contexts else Resize(contexts, fd * 3 / 2)
  }

  // ---- operations ----

  /** add_event() once the table reaches the descriptor. */
  function AddInTable(s: State, fd: nat, e: Event, slot: Slot, kernel: bool): (State, Outcome)
    requires fd < |s.contexts|
  {
    var c := s.contexts[fd];
    if Has(c.events, e) then (s, Abort)
    else match Ctl(s.epoll, AddOp(c.events), fd, With(c.events, e), kernel)
      case None => (s, Rejected)
      case Some(epoll) =>
        if SlotOf(c, e) != Free then (s, Abort)
        else
          (s.(contexts := s.contexts[fd := Armed(c, e, slot)], epoll := epoll, pending := s.pending + 1,
              added := s.added + multiset{Reg(fd, e, slot)}), Ok)
  }

  function AddEvent(s: State, fd: nat, e: Event, slot: Slot, kernel: bool): (State, Outcome) {
    var s0 := s.(contexts := Grown(s.contexts, fd));
    if fd >= |s0.contexts| then (s0, Abort) else AddInTable(s0, fd, e, slot, kernel)
  }

  function DelEvent(s: State, fd: nat, e: Event, kernel: bool): (State, Outcome) {
    if |s.contexts| <= fd || !Has(s.contexts[fd].events, e) then (s, Rejected)
    else
      var c := s.contexts[fd];
      match Ctl(s.epoll, LeaveOp(Cleared(c, e).events), fd, Cleared(c, e).events, kernel)
      case None => (s, Rejected)
      case Some(epoll) =>
        (s.(contexts := s.contexts[fd := Cleared(c, e)],
            epoll := epoll, pending := s.pending - 1,
            deleted := s.deleted + multiset{Reg(fd, e, SlotOf(c, e))}), Ok)
  }

  /** trigger_event() and the decrement after it: hands the context to the scheduler and clears it. */
  function Trigger(s: State, fd: nat, e: Event): (State, Outcome)
    requires fd < |s.contexts|
  {
    var c := s.contexts[fd];
    if !Has(c.events, e) then (s, Abort)
    else
      (s.(contexts := s.contexts[fd := Cleared(c, e)],
          pending := s.pending - 1,
          woken := s.woken + multiset{Reg(fd, e, SlotOf(c, e))}), Ok)
  }

  function CancelEvent(s: State, fd: nat, e: Event, kernel: bool): (State, Outcome) {
    if |s.contexts| <= fd || !Has(s.contexts[fd].events, e) then (s, Rejected)
    else
      var c := s.contexts[fd];
      match Ctl(s.epoll, LeaveOp(Cleared(c, e).events), fd, Cleared(c, e).events, kernel)
      case None => (s, Rejected)
      case Some(epoll) => Trigger(s.(epoll := epoll), fd, e)
  }

  /** Trigger each event of `es` in turn, READ first. */
  function TriggerAll(s: State, fd: nat, es: Mask): (State, Outcome)
    requires fd < |s.contexts|
  {
    var (s1, o1) := if es.read then Trigger(s, fd, READ) else (s, Ok);
    if o1 == Abort then (s1, Abort)
    else if es.write then Trigger(s1, fd, WRITE) else (s1, Ok)
  }

  function CancelAll(s: State, fd: nat, kernel: bool): (State, Outcome) {
    if |s.contexts| <= fd || s.contexts[fd].events == NONE then (s, Rejected)
    else match Ctl(s.epoll, DEL, fd, NONE, kernel)
      case None => (s, Rejected)
      case Some(epoll) => TriggerAll(s.(epoll := epoll), fd, s.contexts[fd].events)
  }

  /** The events idle() takes as having happened: the reported ones, and on an error or hang-up
      everything registered. */
  function RealEvents(c: FdContext, reported: Mask, error: bool): Mask {
    if error then Or(reported, c.events) else reported
  }

  /** One report of epoll_wait in idle(), as written: the reported events are triggered unmasked. */
  function IdleReport(s: State, fd: nat, reported: Mask, error: bool, kernel: bool): (State, Outcome)
    requires fd < |s.contexts|
  {
    var c := s.contexts[fd];
    var happened := RealEvents(c, reported, error);
    if And(c.events, happened) == NONE then (s, Ok)
    else match Ctl(s.epoll, LeaveOp(Minus(c.events, happened)), fd, Minus(c.events, happened), kernel)
      case None => (s, Rejected)
      case Some(epoll) => TriggerAll(s.(epoll := epoll), fd, happened)
  }

  // ---- the ledger ----

  function Bits(m: Mask): nat {
    (if m.read then 1 else 0) + (if m.write then 1 else 0)
  }

  function TotalBits(contexts: seq<FdContext>): nat {
    if contexts == [] then 0 else Bits(contexts[0].events) + TotalBits(contexts[1..])
  }

  /** A context holds exactly one fiber or callback for each of its events, and nothing else. */
  predicate ContextOk(c: FdContext) {
    (c.events.read <==> c.read != Free) && (c.events.write <==> c.write != Free)
  }

  /** The kernel watches exactly the set bits. */
  predicate EpollAgrees(s: State, fd: nat) {
    && (fd in s.epoll <==> fd < |s.contexts| && s.contexts[fd].events != NONE)
    && (fd in s.epoll ==> s.epoll[fd] == s.contexts[fd].events)
  }

  predicate Here(contexts: seq<FdContext>, r: Reg) {
    r.fd < |contexts| && Has(contexts[r.fd].events, r.event) && SlotOf(contexts[r.fd], r.event) == r.slot
  }

  /** Every registration ever made is still in the table, was deleted, or was handed to the scheduler. */
  predicate AccountedFor(s: State, r: Reg) {
    s.added[r] == (if Here(s.contexts, r) then 1 else 0) + s.deleted[r] + s.woken[r]
  }

  ghost predicate Accounts(s: State) {
    && |s.contexts| >= 32
    && (forall fd :: 0 <= fd < |s.contexts| ==> ContextOk(s.contexts[fd]))
    && s.pending == TotalBits(s.contexts)
    && (forall r :: AccountedFor(s, r))
  }

  ghost predicate Watched(s: State) {
    forall fd :: EpollAgrees(s, fd)
  }

  ghost predicate Ledger(s: State) {
    Accounts(s) && Watched(s)
  }

  lemma {:induction false} BitsUpdate(cs: seq<FdContext>, k: nat, x: FdContext)
    requires k < |cs|
    ensures TotalBits(cs[k := x]) + Bits(cs[k].events) == TotalBits(cs) + Bits(x.events)
  {
    if k > 0 {
      assert cs[k := x][1..] == cs[1..][k - 1 := x];
      BitsUpdate(cs[1..], k - 1, x);
    }
  }

  lemma {:induction false} BitsAppend(xs: seq<FdContext>, ys: seq<FdContext>)
    ensures TotalBits(xs + ys) == TotalBits(xs) + TotalBits(ys)
  {
    if xs == [] {
      assert xs + ys == ys;
    } else {
      assert (xs + ys)[1..] == xs[1..] + ys;
      BitsAppend(xs[1..], ys);
    }
  }

  lemma {:induction false} BitsEmpty(cs: seq<FdContext>)
    requires forall i :: 0 <= i < |cs| ==> cs[i].events == NONE
    ensures TotalBits(cs) == 0
  {
    if cs != [] {
      BitsEmpty(cs[1..]);
    }
  }

  lemma InitLedger()
    ensures Ledger(Init())
  {
    BitsEmpty(Init().contexts);
  }

  /** The table grows enough for the descriptor asked for, because it starts at 32. */
  lemma GrownFits(contexts: seq<FdContext>, fd: nat)
    requires |contexts| >= 32
    ensures fd < |Grown(contexts, fd)| && |Grown(contexts, fd)| >= |contexts|
    ensures forall i :: 0 <= i < |contexts| ==> Grown(contexts, fd)[i] == contexts[i]
    ensures forall i :: |contexts| <= i < |Grown(contexts, fd)| ==> Grown(contexts, fd)[i] == Empty
  {
  }

  lemma GrowKeepsLedger(s: State, fd: nat)
    requires Ledger(s)
    ensures Ledger(s.(contexts := Grown(s.contexts, fd)))
  {
    GrownFits(s.contexts, fd);
    var g := Grown(s.contexts, fd);
    assert g == s.contexts + g[|s.contexts|..];
    BitsAppend(s.contexts, g[|s.contexts|..]);
    BitsEmpty(g[|s.contexts|..]);
    var t := s.(contexts := g);
    forall n ensures EpollAgrees(t, n) { assert EpollAgrees(s, n); }
    forall r ensures AccountedFor(t, r) { assert AccountedFor(s, r); }
  }

  // ---- each operation keeps the ledger ----

  lemma TriggerAccounts(s: State, fd: nat, e: Event)
    requires Accounts(s) && fd < |s.contexts|
    ensures var (t, o) := Trigger(s, fd, e);
      && (o == Abort <==> !Has(s.contexts[fd].events, e))
      && (o != Abort ==> Accounts(t) && t == s.(contexts := t.contexts, pending := t.pending, woken := t.woken)
                         && t.contexts == s.contexts[fd := Cleared(s.contexts[fd], e)])
  {
    if Has(s.contexts[fd].events, e) {
      BitsUpdate(s.contexts, fd, Cleared(s.contexts[fd], e));
      forall r ensures AccountedFor(Trigger(s, fd, e).0, r) { assert AccountedFor(s, r); }
    }
  }

  lemma TriggerAllAccounts(s: State, fd: nat, es: Mask)
    requires Accounts(s) && fd < |s.contexts|
    ensures var (t, o) := TriggerAll(s, fd, es);
      && (o == Abort <==> !Within(es, s.contexts[fd].events))
      && (o != Abort ==> Accounts(t) && t == s.(contexts := t.contexts, pending := t.pending, woken := t.woken)
                         && |t.contexts| == |s.contexts|
                         && t.contexts == s.contexts[fd := t.contexts[fd]]
                         && t.contexts[fd].events == Minus(s.contexts[fd].events, es))
  {
    TriggerAccounts(s, fd, READ);
    var (s1, o1) := if es.read then Trigger(s, fd, READ) else (s, Ok);
    if o1 != Abort {
      TriggerAccounts(s1, fd, WRITE);
    }
  }

  /** After the kernel accepted the new mask of one descriptor and its context got those events. */
  lemma OneDescriptorWatched(s: State, t: State, fd: nat, op: CtlOp, c: FdContext)
    requires Watched(s) && fd < |s.contexts|
    requires op == DEL <==> c.events == NONE
    requires Ctl(s.epoll, op, fd, c.events, true) == Some(t.epoll)
    requires t.contexts == s.contexts[fd := c]
    ensures Watched(t)
  {
    forall n ensures EpollAgrees(t, n) { assert EpollAgrees(s, n); }
  }

  lemma ArmAccounts(s: State, fd: nat, e: Event, slot: Slot, epoll: map<nat, Mask>)
    requires Accounts(s) && slot != Free && fd < |s.contexts| && !Has(s.contexts[fd].events, e)
    ensures Accounts(s.(contexts := s.contexts[fd := Armed(s.contexts[fd], e, slot)], epoll := epoll,
                        pending := s.pending + 1, added := s.added + multiset{Reg(fd, e, slot)}))
  {
    var t := s.(contexts := s.contexts[fd := Armed(s.contexts[fd], e, slot)], epoll := epoll,
                pending := s.pending + 1, added := s.added + multiset{Reg(fd, e, slot)});
    BitsUpdate(s.contexts, fd, Armed(s.contexts[fd], e, slot));
    forall r ensures AccountedFor(t, r) { assert AccountedFor(s, r); }
  }

  lemma AddInTableKeepsLedger(s: State, fd: nat, e: Event, slot: Slot, kernel: bool)
    requires Ledger(s) && slot != Free && fd < |s.contexts|
    ensures var (t, o) := AddInTable(s, fd, e, slot, kernel);
      && (o == Abort <==> Has(s.contexts[fd].events, e))
      && (o != Abort ==> Ledger(t) && (o == Ok <==> kernel) && t.woken == s.woken)
      && (o == Ok ==> Here(t.contexts, Reg(fd, e, slot)))
  {
    var c := s.contexts[fd];
    assert EpollAgrees(s, fd);
    if !Has(c.events, e) && kernel {
      var t := AddInTable(s, fd, e, slot, kernel).0;
      ArmAccounts(s, fd, e, slot, t.epoll);
      OneDescriptorWatched(s, t, fd, AddOp(c.events), Armed(c, e, slot));
    }
  }

  /** add_event() fails its assertion only on an event that is registered already, and the request it
      makes is always legal, so it is rejected only if the kernel refuses it. */
  lemma AddKeepsLedger(s: State, fd: nat, e: Event, slot: Slot, kernel: bool)
    requires Ledger(s) && slot != Free
    ensures var (t, o) := AddEvent(s, fd, e, slot, kernel);
      && (o == Abort <==> fd < |s.contexts| && Has(s.contexts[fd].events, e))
      && (o != Abort ==> Ledger(t) && (o == Ok <==> kernel) && t.woken == s.woken)
      && (o == Ok ==> Here(t.contexts, Reg(fd, e, slot)))
  {
    GrowKeepsLedger(s, fd);
    GrownFits(s.contexts, fd);
    AddInTableKeepsLedger(s.(contexts := Grown(s.contexts, fd)), fd, e, slot, kernel);
  }

  lemma DelKeepsLedger(s: State, fd: nat, e: Event, kernel: bool)
    requires Ledger(s)
    ensures var (t, o) := DelEvent(s, fd, e, kernel);
      && Ledger(t) && (o == Ok <==> kernel && fd < |s.contexts| && Has(s.contexts[fd].events, e))
      && (o != Ok ==> t == s) && t.woken == s.woken
  {
    if fd < |s.contexts| && Has(s.contexts[fd].events, e) && kernel {
      assert EpollAgrees(s, fd);
      var c := s.contexts[fd];
      var t := DelEvent(s, fd, e, kernel).0;
      BitsUpdate(s.contexts, fd, Cleared(c, e));
      OneDescriptorWatched(s, t, fd, LeaveOp(Cleared(c, e).events), Cleared(c, e));
      forall r ensures AccountedFor(t, r) { assert AccountedFor(s, r); }
    }
  }

  lemma EpollIrrelevant(s: State, epoll: map<nat, Mask>)
    requires Accounts(s)
    ensures Accounts(s.(epoll := epoll))
  {
    forall r ensures AccountedFor(s.(epoll := epoll), r) { assert AccountedFor(s, r); }
  }

  lemma CancelKeepsLedger(s: State, fd: nat, e: Event, kernel: bool)
    requires Ledger(s)
    ensures var (t, o) := CancelEvent(s, fd, e, kernel);
      && Ledger(t) && (o == Ok <==> kernel && fd < |s.contexts| && Has(s.contexts[fd].events, e))
      && o != Abort && (o != Ok ==> t == s)
  {
    if fd < |s.contexts| && Has(s.contexts[fd].events, e) && kernel {
      assert EpollAgrees(s, fd);
      var c := s.contexts[fd];
      var epoll := Ctl(s.epoll, LeaveOp(Cleared(c, e).events), fd, Cleared(c, e).events, kernel).value;
      EpollIrrelevant(s, epoll);
      TriggerAccounts(s.(epoll := epoll), fd, e);
      OneDescriptorWatched(s, CancelEvent(s, fd, e, kernel).0, fd, LeaveOp(Cleared(c, e).events), Cleared(c, e));
    }
  }

  lemma CancelAllKeepsLedger(s: State, fd: nat, kernel: bool)
    requires Ledger(s)
    ensures var (t, o) := CancelAll(s, fd, kernel);
      && Ledger(t) && (o == Ok <==> kernel && fd < |s.contexts| && s.contexts[fd].events != NONE)
      && o != Abort && (o == Ok ==> fd < |t.contexts| && t.contexts[fd].events == NONE)
  {
    if fd < |s.contexts| && s.contexts[fd].events != NONE && kernel {
      assert EpollAgrees(s, fd);
      var epoll := Ctl(s.epoll, DEL, fd, NONE, kernel).value;
      EpollIrrelevant(s, epoll);
      TriggerAllAccounts(s.(epoll := epoll), fd, s.contexts[fd].events);
      var t := CancelAll(s, fd, kernel).0;
      OneDescriptorWatched(s, t, fd, DEL, t.contexts[fd]);
    }
  }

  /** A report in idle() fails the assertion of trigger_event() exactly when it mixes an event that is
      registered with one that no longer is; otherwise the ledger is kept. */
  lemma IdleReportAbortsIff(s: State, fd: nat, reported: Mask, error: bool, kernel: bool)
    requires Ledger(s) && fd < |s.contexts|
    ensures var (t, o) := IdleReport(s, fd, reported, error, kernel);
      var happened := RealEvents(s.contexts[fd], reported, error);
      && (o == Abort <==> kernel && And(happened, s.contexts[fd].events) != NONE && !Within(happened, s.contexts[fd].events))
      && (o != Abort ==> Ledger(t) && (o == Rejected ==> t == s))
      && (o == Ok ==> fd < |t.contexts| && t.contexts[fd].events == Minus(s.contexts[fd].events, happened))
  {
    var c := s.contexts[fd];
    var happened := RealEvents(c, reported, error);
    if And(c.events, happened) != NONE && kernel {
      assert EpollAgrees(s, fd);
      var left := Minus(c.events, happened);
      var epoll := Ctl(s.epoll, LeaveOp(left), fd, left, kernel).value;
      EpollIrrelevant(s, epoll);
      TriggerAllAccounts(s.(epoll := epoll), fd, happened);
      if Within(happened, c.events) {
        var t := IdleReport(s, fd, reported, error, kernel).0;
        OneDescriptorWatched(s, t, fd, LeaveOp(left), t.contexts[fd]);
      }
    }
  }
}
