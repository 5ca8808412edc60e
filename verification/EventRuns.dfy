/**
  Runs of the IO manager's event table (acid/common/iomanager.cpp): four copies of the event state agree
  after any sequence of operations, each registration is woken at most once, and what breaks the table.
 */
module EventRuns {
  import opened Options
  import opened EventLedger

  datatype Op =
    | Add(fd: nat, e: Event, slot: Slot)
    | Del(fd: nat, e: Event)
    | Cancel(fd: nat, e: Event)
    | CancelEvery(fd: nat)
    | Report(fd: nat, reported: Mask, error: bool)    // one event of epoll_wait handled by idle()
    | LateResize(size: nat)                           // decided on by an add_event() that saw an older table
    | LateAdd(fd: nat, e: Event, slot: Slot)          // and the rest of that add_event()

  predicate WellFormed(s: State, op: Op) {
    match op
    case Add(_, _, slot) => slot != Free
    case Report(fd, _, _) => fd < |s.contexts|
    case LateResize(size) => size >= 32
    case LateAdd(fd, _, slot) => fd < |s.contexts| && slot != Free
    case _ => true
  }

  function Do(s: State, op: Op, kernel: bool): (State, Outcome)
    requires WellFormed(s, op)
  {
    match op
    case Add(fd, e, slot) => AddEvent(s, fd, e, slot, kernel)
    case Del(fd, e) => DelEvent(s, fd, e, kernel)
    case Cancel(fd, e) => CancelEvent(s, fd, e, kernel)
    case CancelEvery(fd) => CancelAll(s, fd, kernel)
    case Report(fd, reported, error) => IdleReport(s, fd, reported, error, kernel)
    case LateResize(size) => (s.(contexts := Resize(s.contexts, size)), Ok)
    case LateAdd(fd, e, slot) => AddInTable(s, fd, e, slot, kernel)
  }

  /** A late resize drops no context that has an event registered. */
  predicate CutsNothing(s: State, op: Op) {
    op.LateResize? ==> forall c :: c in CutOff(s.contexts, op.size) ==> c.events == NONE
  }

  function CutOff(contexts: seq<FdContext>, size: nat): seq<FdContext> {
    if size < |contexts| then contexts[size..] else []
  }

  predicate NothingCut(s: State, ops: seq<(Op, bool)>)
    decreases |ops|
  {
    ops == [] || !WellFormed(s, ops[0].0) || Do(s, ops[0].0, ops[0].1).1 == Abort
    || (CutsNothing(s, ops[0].0) && NothingCut(Do(s, ops[0].0, ops[0].1).0, ops[1..]))
  }

  /** The ledger holds at every moment of a run. */
  ghost predicate LedgerThroughout(s: State, ops: seq<(Op, bool)>)
    decreases |ops|
  {
    && Ledger(s)
    && (ops == [] || !WellFormed(s, ops[0].0) || Do(s, ops[0].0, ops[0].1).1 == Abort
        || LedgerThroughout(Do(s, ops[0].0, ops[0].1).0, ops[1..]))
  }

  /** The state a sequence of operations reaches, up to the first failed assertion. */
  function Run(s: State, ops: seq<(Op, bool)>): State
    decreases |ops|
  {
    if ops == [] || !WellFormed(s, ops[0].0) || Do(s, ops[0].0, ops[0].1).1 == Abort then s
    else Run(Do(s, ops[0].0, ops[0].1).0, ops[1..])
  }

  lemma DoKeepsLedgerIff(s: State, op: Op, kernel: bool)
    requires Ledger(s) && WellFormed(s, op) && Do(s, op, kernel).1 != Abort
    ensures Ledger(Do(s, op, kernel).0) <==> CutsNothing(s, op)
  {
    match op
    case Add(fd, e, slot) => AddKeepsLedger(s, fd, e, slot, kernel);
    case Del(fd, e) => DelKeepsLedger(s, fd, e, kernel);
    case Cancel(fd, e) => CancelKeepsLedger(s, fd, e, kernel);
    case CancelEvery(fd) => CancelAllKeepsLedger(s, fd, kernel);
    case Report(fd, reported, error) => IdleReportAbortsIff(s, fd, reported, error, kernel);
    case LateResize(size) => ResizeKeepsLedgerIff(s, size); CutInNumbers(s, size);
    case LateAdd(fd, e, slot) => AddKeepsLedger(s, fd, e, slot, kernel);
  }

  lemma CutInNumbers(s: State, size: nat)
    ensures CutsNothing(s, LateResize(size)) <==> forall fd :: size <= fd < |s.contexts| ==> s.contexts[fd].events == NONE
  {
    if size <= |s.contexts| {
      var tail := s.contexts[size..];
      assert forall fd :: size <= fd < |s.contexts| ==> s.contexts[fd] == tail[fd - size];
    }
  }

  /** The copies of the event state agree at every moment of a run exactly if no late resize cuts off a
      registered event, whatever else interleaves. */
  lemma {:induction false} LedgerThroughoutIff(s: State, ops: seq<(Op, bool)>)
    requires Ledger(s)
    ensures LedgerThroughout(s, ops) <==> NothingCut(s, ops)
    ensures NothingCut(s, ops) ==> Ledger(Run(s, ops))
    decreases |ops|
  {
    if ops != [] && WellFormed(s, ops[0].0) && Do(s, ops[0].0, ops[0].1).1 != Abort {
      DoKeepsLedgerIff(s, ops[0].0, ops[0].1);
      var t := Do(s, ops[0].0, ops[0].1).0;
      if CutsNothing(s, ops[0].0) {
        LedgerThroughoutIff(t, ops[1..]);
      }
    }
  }

  /** After any sequence of operations: the pending counter is the number of bits set in the table, the
      kernel watches exactly those bits, and a context holds a fiber or callback exactly for its bits. */
  lemma FourCopiesAgree(ops: seq<(Op, bool)>, fd: nat)
    requires NothingCut(Init(), ops)
    ensures var s := Run(Init(), ops);
      && s.pending == TotalBits(s.contexts)
      && (fd in s.epoll <==> fd < |s.contexts| && s.contexts[fd].events != NONE)
      && (fd in s.epoll ==> s.epoll[fd] == s.contexts[fd].events)
      && (fd < |s.contexts| ==> ContextOk(s.contexts[fd]))
  {
    InitLedger();
    LedgerThroughoutIff(Init(), ops);
    assert EpollAgrees(Run(Init(), ops), fd);
  }

  /** Every request the table makes of the kernel in such a state is legal: an operation on a registered
      event (or a fresh one, for add) succeeds exactly when the kernel does not refuse it. */
  lemma RequestsAlwaysLegal(ops: seq<(Op, bool)>, fd: nat, e: Event, slot: Slot, kernel: bool)
    requires slot != Free && NothingCut(Init(), ops)
    ensures var s := Run(Init(), ops);
      && (fd < |s.contexts| && Has(s.contexts[fd].events, e) ==>
            && (DelEvent(s, fd, e, kernel).1 == Ok <==> kernel)
            && (CancelEvent(s, fd, e, kernel).1 == Ok <==> kernel)
            && (CancelAll(s, fd, kernel).1 == Ok <==> kernel)
            && AddEvent(s, fd, e, slot, kernel).1 == Abort)
      && (fd >= |s.contexts| || !Has(s.contexts[fd].events, e) ==>
            (AddEvent(s, fd, e, slot, kernel).1 == Ok <==> kernel))
  {
    InitLedger();
    LedgerThroughoutIff(Init(), ops);
    var s := Run(Init(), ops);
    AddKeepsLedger(s, fd, e, slot, kernel);
    DelKeepsLedger(s, fd, e, kernel);
    CancelKeepsLedger(s, fd, e, kernel);
    CancelAllKeepsLedger(s, fd, kernel);
  }

  /** A registration made once ends in exactly one way: still in the table, deleted, or woken exactly once. */
  lemma WokenAtMostOnce(ops: seq<(Op, bool)>, r: Reg)
    requires NothingCut(Init(), ops) && Run(Init(), ops).added[r] == 1
    ensures var s := Run(Init(), ops);
      || (Here(s.contexts, r) && s.deleted[r] == 0 && s.woken[r] == 0)
      || (!Here(s.contexts, r) && s.deleted[r] == 1 && s.woken[r] == 0)
      || (!Here(s.contexts, r) && s.deleted[r] == 0 && s.woken[r] == 1)
  {
    InitLedger();
    LedgerThroughoutIff(Init(), ops);
    assert AccountedFor(Run(Init(), ops), r);
  }

  /** A report of events that are all still registered never fails; so neither does a pure error report. */
  lemma CurrentReportIsSafe(s: State, fd: nat, reported: Mask, error: bool, kernel: bool)
    requires Ledger(s) && fd < |s.contexts| && Within(reported, s.contexts[fd].events)
    ensures IdleReport(s, fd, reported, error, kernel).1 != Abort
  {
    IdleReportAbortsIff(s, fd, reported, error, kernel);
  }

  /** The failing report: both events were registered when epoll_wait looked, READ was deleted before
      idle() took the lock, and trigger_event(READ) finds its bit clear. */
  lemma StaleReportAborts()
    ensures var s1 := AddEvent(Init(), 3, READ, FiberSlot(7, 1), true).0;
      var s2 := AddEvent(s1, 3, WRITE, FiberSlot(8, 2), true).0;
      var s3 := DelEvent(s2, 3, READ, true).0;
      && Ledger(s3) && |s3.contexts| == 32 && s3.contexts[3].events == Mask(false, true)
      && IdleReport(s3, 3, Mask(true, true), false, true).1 == Abort
  {
    InitLedger();
    AddKeepsLedger(Init(), 3, READ, FiberSlot(7, 1), true);
    var s1 := AddEvent(Init(), 3, READ, FiberSlot(7, 1), true).0;
    SecondEvent(s1, FiberSlot(8, 2));
  }

  lemma SecondEvent(s1: State, slot: Slot)
    requires Ledger(s1) && |s1.contexts| == 32 && s1.contexts[3].events == Mask(true, false) && slot != Free
    ensures var s3 := DelEvent(AddEvent(s1, 3, WRITE, slot, true).0, 3, READ, true).0;
      && Ledger(s3) && |s3.contexts| == 32 && s3.contexts[3].events == Mask(false, true)
      && IdleReport(s3, 3, Mask(true, true), false, true).1 == Abort
  {
    AddKeepsLedger(s1, 3, WRITE, slot, true);
    var s2 := AddEvent(s1, 3, WRITE, slot, true).0;
    DelKeepsLedger(s2, 3, READ, true);
    IdleReportAbortsIff(DelEvent(s2, 3, READ, true).0, 3, Mask(true, true), false, true);
  }

  // ---- the table can be cut short ----

  /** add_event() decides to resize under the read lock and resizes under the write lock without looking
      again. A resize to `size` keeps the ledger exactly when it cuts off no registered event. */
  lemma ResizeKeepsLedgerIff(s: State, size: nat)
    requires Ledger(s) && size >= 32
    ensures Ledger(s.(contexts := Resize(s.contexts, size)))
            <==> forall fd :: size <= fd < |s.contexts| ==> s.contexts[fd].events == NONE
  {
    var t := s.(contexts := Resize(s.contexts, size));
    if forall fd :: size <= fd < |s.contexts| ==> s.contexts[fd].events == NONE {
      ResizeBits(s.contexts, size);
      forall n ensures EpollAgrees(t, n) { assert EpollAgrees(s, n); }
      forall r ensures AccountedFor(t, r) { assert AccountedFor(s, r); }
    } else {
      var fd :| size <= fd < |s.contexts| && s.contexts[fd].events != NONE;
      assert EpollAgrees(s, fd) && !EpollAgrees(t, fd);
    }
  }

  lemma ResizeBits(cs: seq<FdContext>, size: nat)
    requires forall fd :: size <= fd < |cs| ==> cs[fd].events == NONE
    ensures TotalBits(Resize(cs, size)) == TotalBits(cs)
  {
    if size <= |cs| {
      assert cs == cs[..size] + cs[size..];
      BitsAppend(cs[..size], cs[size..]);
      BitsEmpty(cs[size..]);
    } else {
      var more := seq(size - |cs|, i => Empty);
      BitsAppend(cs, more);
      BitsEmpty(more);
    }
  }

  /** Registering on descriptor 100 in a fresh table resizes it to 150. */
  lemma FreshAdd() returns (s: State)
    ensures s == AddEvent(Init(), 100, READ, FiberSlot(7, 1), true).0
    ensures Ledger(s) && |s.contexts| == 150 && s.pending == 1 && Here(s.contexts, Reg(100, READ, FiberSlot(7, 1)))
  {
    InitLedger();
    AddKeepsLedger(Init(), 100, READ, FiberSlot(7, 1), true);
    s := AddEvent(Init(), 100, READ, FiberSlot(7, 1), true).0;
    assert |Grown(Init().contexts, 100)| == 150;
  }

  /** Two first-time adders: the one for descriptor 40 saw 32 contexts and resizes to 60 after the one for
      descriptor 100 resized to 150 and registered; that registration is lost while the kernel keeps it. */
  lemma LateResizeLosesEvents() returns (s: State, t: State)
    ensures s == AddEvent(Init(), 100, READ, FiberSlot(7, 1), true).0 && Ledger(s)
    ensures t == s.(contexts := Resize(s.contexts, 40 * 3 / 2))
    ensures |t.contexts| == 60 && t.pending == 1 && 100 in t.epoll && !Ledger(t)
  {
    s := FreshAdd();
    t := s.(contexts := Resize(s.contexts, 40 * 3 / 2));
    AddedHere(s, 100, READ, FiberSlot(7, 1));
    ResizeKeepsLedgerIff(s, 60);
  }

  lemma AddedHere(s: State, fd: nat, e: Event, slot: Slot)
    requires Ledger(s) && Here(s.contexts, Reg(fd, e, slot))
    ensures s.contexts[fd].events != NONE && fd in s.epoll
  {
    assert EpollAgrees(s, fd);
  }

  // ---- how long idle() sleeps ----

  /** static_cast<int> of an unsigned 64-bit number. */
  function ToInt(n: nat): int {
    var m := n % 0x1_0000_0000;
    if m < 0x8000_0000 then m else m - 0x1_0000_0000
  }

  const MaxTimeout: int := 5000

  /** The timeout idle() passes to epoll_wait for an answer of get_next_timer(); negative blocks for good. */
  function EpollTimeout(next: nat): int {
    if next == 0xFFFF_FFFF_FFFF_FFFF then MaxTimeout
    else if ToInt(next) < MaxTimeout then ToInt(next) else MaxTimeout
  }

  /** idle() sleeps at most 5 seconds and never past the next timer, except that for waits whose low 32
      bits are 2^31 or more the narrowing makes the timeout negative and epoll_wait blocks for good. */
  lemma SleepIsBoundedIff(next: nat)
    requires next < 0xFFFF_FFFF_FFFF_FFFF
    ensures 0 <= EpollTimeout(next) <= MaxTimeout && EpollTimeout(next) <= next <==> next % 0x1_0000_0000 < 0x8000_0000
    ensures next % 0x1_0000_0000 < 0x8000_0000 ==>
      EpollTimeout(next) == if next % 0x1_0000_0000 < 5000 then next % 0x1_0000_0000 else 5000
    ensures EpollTimeout(0x8000_0000) == -0x8000_0000
  {
  }
}
