/**
  One hooked IO call (do_io in acid/common/hook.cpp): call, register and park, be woken by the event, by
  the timeout callback or by a cancellation, and retry. The steps of the call interleave with the event
  loop, the timer and other fibers.
 */
module HookIo {
  import opened Options

  datatype Result = Transferred(n: int) | TimedOut | RegisterFailed

  datatype Phase =
    | Calling             // about to make the system call
    | Arming              // it said EAGAIN; about to arm the timer
    | Adding              // about to add_event()
    | Registered          // add_event() succeeded, still running
    | Parked              // yielded
    | Woken               // resumed; about to cancel the timer and look at `cancelled`
    | Returned(r: Result)

  datatype Call = Call(
    phase: Phase,
    limited: bool,        // a timeout is configured for the descriptor
    registered: bool,     // the event's bit is set for this fiber
    wakes: nat,           // times the fiber is with the scheduler
    armed: bool,          // the timer of the current round is in the timer set
    due: nat,             // expired timeout callbacks that the scheduler has not run yet
    cancelled: bool,      // timer_info::cancelled
    parks: nat,           // history: successful add_event() calls
    woken: nat,           // history: times the fiber was scheduled
    ran: nat)             // history: timeout callbacks that took effect

  datatype Step =
    | SysCall(n: int, again: bool)
    | Arm
    | AddEvent(ok: bool)
    | Yield
    | Resume
    | AfterWake
    | EventReady          // idle() triggers the event, or somebody cancels it
    | Expire              // the timer set hands the callback to the scheduler
    | RunCallback

  function Start(limited: bool): Call {
    Call(Calling, limited, false, 0, false, 0, false, 0, 0, 0)
  }

  predicate Enabled(c: Call, s: Step) {
    match s
    case SysCall(_, _) => c.phase.Calling?
    case Arm => c.phase.Arming?
    case AddEvent(_) => c.phase.Adding?
    case Yield => c.phase.Registered?
    case Resume => c.phase.Parked? && c.wakes > 0
    case AfterWake => c.phase.Woken?
    case EventReady => c.registered
    case Expire => c.armed
    case RunCallback => c.due > 0
  }

  /** trigger_event(): the bit is cleared and the fiber is scheduled. */
  function Triggered(c: Call): Call {
    if c.registered then c.(registered := false, wakes := c.wakes + 1, woken := c.woken + 1) else c
  }

  function Next(c: Call, s: Step): Call
    requires Enabled(c, s)
  {
    match s
    case SysCall(n, again) => c.(phase := if again then Arming else Returned(Transferred(n)))
    case Arm => c.(phase := Adding, armed := c.limited)
    case AddEvent(ok) =>
      if ok then c.(phase := Registered, registered := true, parks := c.parks + 1)
      else c.(phase := Returned(RegisterFailed), armed := false)
    case Yield => c.(phase := Parked)
    case Resume => c.(phase := Woken, wakes := c.wakes - 1)
    case AfterWake => c.(phase := if c.cancelled then Returned(TimedOut) else Calling, armed := false)
    case EventReady => Triggered(c)
    case Expire => c.(armed := false, due := c.due + 1)
    case RunCallback =>
      var c1 := c.(due := c.due - 1);
      if c.phase.Returned? || c.cancelled then c1
      else Triggered(c1.(cancelled := true, ran := c.ran + 1))
  }

  function Run(c: Call, steps: seq<Step>): Call
    decreases |steps|
  {
    if steps == [] || !Enabled(c, steps[0]) then c else Run(Next(c, steps[0]), steps[1..])
  }

  predicate Waiting(c: Call) {
    c.phase.Registered? || c.phase.Parked?
  }

  /** The fiber is registered or scheduled, never both and once, exactly while it waits. */
  predicate OneWake(c: Call) {
    && c.wakes + (if c.registered then 1 else 0) == (if Waiting(c) then 1 else 0)
    && c.parks == c.woken + (if c.registered then 1 else 0)
  }

  predicate TimeoutHonest(c: Call) {
    && (c.cancelled <==> c.ran == 1) && c.ran <= 1
    && (!c.limited ==> !c.armed && c.due == 0 && c.ran == 0)
    && (c.armed ==> c.phase.Adding? || Waiting(c) || c.phase.Woken?)
    && (c.phase == Returned(TimedOut) ==> c.ran == 1)
    && (c.phase.Adding? && c.limited ==> c.cancelled || c.armed || c.due > 0)
  }

  lemma {:induction false} RunKeepsInv(c: Call, steps: seq<Step>)
    requires OneWake(c) && TimeoutHonest(c)
    ensures OneWake(Run(c, steps)) && TimeoutHonest(Run(c, steps)) && Run(c, steps).limited == c.limited
    decreases |steps|
  {
    if steps != [] && Enabled(c, steps[0]) {
      RunKeepsInv(Next(c, steps[0]), steps[1..]);
    }
  }

  /** Whichever comes first, the ready event, the timeout or a cancellation: in every interleaving the
      fiber is scheduled at most once per successful add_event(), never while it is not waiting, and
      exactly once for every park that is over; and it reports a timeout only if a timeout is configured
      and its own callback ran. */
  lemma OneWakePerPark(limited: bool, steps: seq<Step>)
    ensures var c := Run(Start(limited), steps);
      && c.wakes <= 1 && (c.wakes == 1 ==> Waiting(c) && !c.registered)
      && c.woken <= c.parks <= c.woken + 1
      && (!Waiting(c) ==> c.woken == c.parks)
      && (c.phase == Returned(TimedOut) ==> limited && c.ran == 1)
  {
    RunKeepsInv(Start(limited), steps);
  }

  // ---- what the call returns ----

  /** In any reachable state, the step after a wake-up gives the time-out back exactly if the call's own callback
      ran, and otherwise goes back to the system call; in both cases the timer is off. */
  lemma TimesOutIff(limited: bool, steps: seq<Step>)
    requires Enabled(Run(Start(limited), steps), AfterWake)
    ensures var c := Run(Start(limited), steps);
      && Next(c, AfterWake).phase == (if c.ran == 1 then Returned(TimedOut) else Calling)
      && !Next(c, AfterWake).armed
  {
    RunKeepsInv(Start(limited), steps);
  }

  /** The verdict of the last system call made. */
  function LastCall(c: Call, steps: seq<Step>, before: Option<Step>): Option<Step>
    decreases |steps|
  {
    if steps == [] || !Enabled(c, steps[0]) then before
    else LastCall(Next(c, steps[0]), steps[1..], if steps[0].SysCall? then Some(steps[0]) else before)
  }

  /** The call has returned a transfer exactly if its last system call did not say EAGAIN, and then that call's. */
  ghost predicate Transfers(c: Call, last: Option<Step>) {
    && (last.Some? ==> last.value.SysCall?)
    && forall n :: c.phase == Returned(Transferred(n)) <==> last == Some(SysCall(n, false))
  }

  lemma TransferIsLastCall(limited: bool, steps: seq<Step>)
    ensures Transfers(Run(Start(limited), steps), LastCall(Start(limited), steps, None))
  {
    ReturnsTheTransfer(Start(limited), steps, None);
  }

  /** A returned transfer is the result of the last system call, which did not say EAGAIN; until then every
      system call did. */
  lemma {:induction false} ReturnsTheTransfer(c: Call, steps: seq<Step>, before: Option<Step>)
    requires Transfers(c, before)
    ensures Transfers(Run(c, steps), LastCall(c, steps, before))
    decreases |steps|
  {
    if steps != [] && Enabled(c, steps[0]) {
      ReturnsTheTransfer(Next(c, steps[0]), steps[1..], if steps[0].SysCall? then Some(steps[0]) else before);
    }
  }

  /** The whole of a time-out: a parked call whose timer is armed is woken by it, and returns ETIMEDOUT. */
  lemma TimeoutEndsTheWait(c: Call)
    requires OneWake(c) && TimeoutHonest(c) && c.phase.Parked? && c.registered && c.armed && !c.cancelled && c.due == 0
    ensures var d := Run(c, [Expire, RunCallback, Resume, AfterWake]);
      d.phase == Returned(TimedOut) && d.ran == 1 && d.wakes == 0 && !d.registered && !d.armed
  {
    var c1 := Next(c, Expire);
    var c2 := Next(c1, RunCallback);
    var c3 := Next(c2, Resume);
    FourSteps(c, Expire, RunCallback, Resume, AfterWake);
  }

  /** The whole of an event: the parked call is woken and makes its system call again, without its timer. */
  lemma EventEndsTheWait(c: Call)
    requires OneWake(c) && TimeoutHonest(c) && c.phase.Parked? && c.registered && !c.cancelled
    ensures var d := Run(c, [EventReady, Resume, AfterWake]);
      d.phase == Calling && d.wakes == 0 && !d.registered && !d.armed && !d.cancelled
  {
    ThreeSteps(c, EventReady, Resume, AfterWake);
  }

  lemma ThreeStepsAnd(c: Call, a: Step, b: Step, e: Step, rest: seq<Step>)
    requires Enabled(c, a) && Enabled(Next(c, a), b) && Enabled(Next(Next(c, a), b), e)
    ensures Run(c, [a, b, e] + rest) == Run(Next(Next(Next(c, a), b), e), rest)
  {
    assert [a, b, e] + rest == [a] + ([b] + ([e] + rest));
    RunCons(c, a, [b] + ([e] + rest));
    RunCons(Next(c, a), b, [e] + rest);
    RunCons(Next(Next(c, a), b), e, rest);
  }

  lemma ThreeSteps(c: Call, a: Step, b: Step, e: Step)
    requires Enabled(c, a) && Enabled(Next(c, a), b) && Enabled(Next(Next(c, a), b), e)
    ensures Run(c, [a, b, e]) == Next(Next(Next(c, a), b), e)
  {
    assert [a, b, e] == [a, b, e] + [];
    ThreeStepsAnd(c, a, b, e, []);
  }

  lemma FourSteps(c: Call, a: Step, b: Step, e: Step, f: Step)
    requires Enabled(c, a) && Enabled(Next(c, a), b) && Enabled(Next(Next(c, a), b), e)
    requires Enabled(Next(Next(Next(c, a), b), e), f)
    ensures Run(c, [a, b, e, f]) == Next(Next(Next(Next(c, a), b), e), f)
  {
    assert [a, b, e, f] == [a] + [b, e, f];
    RunCons(c, a, [b, e, f]);
    ThreeSteps(Next(c, a), b, e, f);
  }

  // ---- a timeout can be lost ----

  /** While the fiber waits with a timeout, a callback that will cancel the wait is in the timer set or
      with the scheduler. */
  predicate Covered(c: Call) {
    c.limited && c.registered ==> !c.cancelled && (c.armed || c.due > 0)
  }

  /** The step that leaves a waiting fiber without its timeout is add_event() after the callback already
      ran: the timer is armed before the event is registered, and a late callback of an earlier round
      also counts. All other steps keep the wait covered. */
  lemma TimeoutLostIff(c: Call, s: Step)
    requires OneWake(c) && TimeoutHonest(c) && Covered(c) && Enabled(c, s)
    ensures Covered(Next(c, s)) <==> !(s == AddEvent(true) && c.limited && c.cancelled)
  {
  }

  /** Once lost it stays lost: until the event comes, no step but EventReady schedules the fiber. */
  lemma {:induction false} LostTimeoutNeverWakes(c: Call, steps: seq<Step>)
    requires OneWake(c) && TimeoutHonest(c) && Waiting(c) && c.registered && c.cancelled
    requires forall i :: 0 <= i < |steps| ==> !steps[i].EventReady?
    ensures Waiting(Run(c, steps)) && Run(c, steps).registered && Run(c, steps).wakes == 0
    decreases |steps|
  {
    if steps != [] && Enabled(c, steps[0]) {
      assert !steps[0].EventReady?;
      LostTimeoutNeverWakes(Next(c, steps[0]), steps[1..]);
    }
  }

  /** The run that loses it: the timer expires and its callback runs before add_event(). */
  lemma TimeoutCanBeLost() returns (c: Call)
    ensures c == Run(Start(true), [SysCall(-1, true), Arm, Expire, RunCallback, AddEvent(true), Yield])
    ensures c.phase == Parked && c.registered && c.cancelled && !c.armed && c.due == 0 && !Covered(c)
  {
    var c3 := Next(Next(Next(Start(true), SysCall(-1, true)), Arm), Expire);
    var more := [RunCallback, AddEvent(true), Yield];
    ThreeStepsAnd(Start(true), SysCall(-1, true), Arm, Expire, more);
    ThreeSteps(c3, RunCallback, AddEvent(true), Yield);
    assert [SysCall(-1, true), Arm, Expire, RunCallback, AddEvent(true), Yield]
      == [SysCall(-1, true), Arm, Expire] + more;
    c := Next(Next(Next(c3, RunCallback), AddEvent(true)), Yield);
  }

  lemma RunCons(c: Call, s: Step, rest: seq<Step>)
    ensures Run(c, []) == c
    ensures Enabled(c, s) ==> Run(c, [s] + rest) == Run(Next(c, s), rest)
  {
    assert ([s] + rest)[1..] == rest;
  }

  // ---- the call as code, cut at its yield ----

  class IoCall {
    const limited: bool
    var phase: Phase
    var registered: bool
    var wakes: nat
    var armed: bool
    var due: nat
    var cancelled: bool
    ghost var parks: nat
    ghost var woken: nat
    ghost var ran: nat

    ghost function View(): Call
      reads this
    {
      Call(phase, limited, registered, wakes, armed, due, cancelled, parks, woken, ran)
    }

    constructor (limited: bool)
      ensures View() == Start(limited)
    {
      this.limited, phase, registered, wakes, armed, due, cancelled := limited, Calling, false, 0, false, 0, false;
      parks, woken, ran := 0, 0, 0;
    }

    /** From `retry:` to the return or to the yield: the verdict of the system call, then the timer, then
        the event; `added` is the outcome of add_event(). */
    method Attempt(n: int, again: bool, added: bool)
      requires phase.Calling?
      modifies this
      ensures View() ==
        var c := Next(old(View()), SysCall(n, again));
        if again then Next(Next(c, Arm), AddEvent(added)) else c
      ensures phase == if !again then Returned(Transferred(n)) else if added then Registered else Returned(RegisterFailed)
      ensures registered <==> old(registered) || (again && added)
      ensures armed <==> if again then limited && added else old(armed)
      ensures cancelled == old(cancelled)
    {
      if !again {
        phase := Returned(Transferred(n));
        return;
      }
      if limited {
        armed := true;
      } else {
        armed := false;
      }
      if !added {
        if armed {
          armed := false;
        }
        phase := Returned(RegisterFailed);
      } else {
        registered := true;
        parks := parks + 1;
        phase := Registered;
      }
    }

    /** After the resume: cancel the timer, then give up or go back to `retry:`. */
    method AfterYield()
      requires phase.Woken?
      modifies this
      ensures View() == Next(old(View()), AfterWake)
      ensures phase == if old(cancelled) then Returned(TimedOut) else Calling
      ensures !armed && cancelled == old(cancelled)
    {
      if armed {
        armed := false;
      }
      if cancelled {
        phase := Returned(TimedOut);
      } else {
        phase := Calling;
      }
    }

    method Trigger()
      modifies this
      ensures View() == Triggered(old(View()))
      ensures !registered && wakes == old(wakes) + if old(registered) then 1 else 0
    {
      if registered {
        registered := false;
        wakes := wakes + 1;
        woken := woken + 1;
      }
    }

    /** The timeout callback: a dead call or one already cancelled is left alone. */
    method OnTimeout()
      requires due > 0
      modifies this
      ensures View() == Next(old(View()), RunCallback)
      ensures phase == old(phase) && due == old(due) - 1
      ensures cancelled <==> old(cancelled) || !phase.Returned?
      ensures !old(cancelled) && cancelled ==> !registered && wakes == old(wakes) + if old(registered) then 1 else 0
      ensures old(cancelled) || phase.Returned? ==> registered == old(registered) && wakes == old(wakes)
    {
      due := due - 1;
      if phase.Returned? || cancelled {
        return;
      }
      cancelled := true;
      ran := ran + 1;
      Trigger();
    }
  }
}
