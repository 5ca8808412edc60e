/**
  The IO manager's table as objects (acid/common/iomanager.h, iomanager.cpp): one FdContext object per
  descriptor, updated in place. `interest` is the kernel's side, `scheduled` what went to the scheduler.
 */
module IoManagerObject {
  import opened Options
  import L = EventLedger

  class FdContext {
    const fd: nat
    var events: L.Mask
    var read: L.Slot
    var write: L.Slot

    constructor (fd: nat)
      ensures this.fd == fd && View() == L.Empty
    {
      this.fd, events, read, write := fd, L.NONE, L.Free, L.Free;
    }

    function View(): L.FdContext
      reads this
    {
      L.FdContext(events, read, write)
    }

    method SetEventContext(event: L.Event, slot: L.Slot)
      modifies this`read, this`write
      ensures View() == if event == L.READ then old(View()).(read := slot) else old(View()).(write := slot)
    {
      if event == L.READ {
        read := slot;
      } else {
        write := slot;
      }
    }

    /** Clears the event's bit and its context; the caller schedules the returned slot. */
    method TriggerEvent(event: L.Event) returns (slot: L.Slot)
      requires L.Has(events, event)
      modifies this
      ensures slot == L.SlotOf(old(View()), event)
      ensures View() == L.Cleared(old(View()), event)
    {
      events := if event == L.READ then events.(read := false) else events.(write := false);
      slot := if event == L.READ then read else write;
      SetEventContext(event, L.Free);
    }
  }

  /** The slots that triggering `es` on a context hands to the scheduler, READ first: those of the events that are
      registered, up to the first that is not. */
  function Handed(c: L.FdContext, es: L.Mask): seq<L.Slot> {
    (if es.read && c.events.read then [c.read] else [])
    + if es.write && c.events.write && (es.read ==> c.events.read) then [c.write] else []
  }

  /** After an error that is everything registered, and nothing stays registered. */
  lemma ErrorHandsAll(s: L.State, fd: nat, reported: L.Mask, kernel: bool)
    requires fd < |s.contexts|
    ensures var c, (t, o) := s.contexts[fd], L.IdleReport(s, fd, reported, true, kernel);
      L.Within(reported, c.events) ==>
        && Handed(c, L.RealEvents(c, reported, true))
           == (if c.events.read then [c.read] else []) + (if c.events.write then [c.write] else [])
        && (o == L.Ok ==> fd < |t.contexts| && t.contexts[fd].events == L.NONE)
  {
  }

  class IOManager {
    var m_fd_contexts: seq<FdContext>
    var m_pending_event_count: int
    var interest: map<nat, L.Mask>
    ghost var added: multiset<L.Reg>
    ghost var deleted: multiset<L.Reg>
    ghost var woken: multiset<L.Reg>
    var scheduled: seq<L.Slot>

    ghost predicate Valid()
      reads this`m_fd_contexts
    {
      forall i, j :: 0 <= i < j < |m_fd_contexts| ==> m_fd_contexts[i] != m_fd_contexts[j]
    }

    ghost function Table(): seq<L.FdContext>
      reads this, m_fd_contexts
    {
      seq(|m_fd_contexts|, i requires 0 <= i < |m_fd_contexts| reads this, m_fd_contexts => m_fd_contexts[i].View())
    }

    ghost function View(): L.State
      reads this, m_fd_contexts
    {
      L.State(Table(), interest, m_pending_event_count, added, deleted, woken)
    }

    /** After one context changed, the table differs at that descriptor only. */
    twostate lemma OneChanged(fd: nat)
      requires old(Valid()) && fd < |m_fd_contexts| && m_fd_contexts == old(m_fd_contexts)
      requires forall i :: 0 <= i < |m_fd_contexts| && i != fd ==> unchanged(m_fd_contexts[i])
      ensures Table() == old(Table())[fd := m_fd_contexts[fd].View()]
    {
    }

    /** epoll_ctl */
    method EpollCtl(op: L.CtlOp, fd: nat, mask: L.Mask, kernel: bool) returns (ok: bool)
      modifies this`interest
      ensures match L.Ctl(old(interest), op, fd, mask, kernel)
              case None => !ok && interest == old(interest)
              case Some(m) => ok && interest == m
    {
      if !kernel || (op == L.ADD) != (fd !in interest) {
        return false;
      }
      interest := if op == L.DEL then interest - {fd} else interest[fd := mask];
      return true;
    }

    method ContextResize(size: nat)
      requires Valid() && size >= |m_fd_contexts|
      modifies this`m_fd_contexts
      ensures Valid() && Table() == L.Resize(old(Table()), size)
      ensures fresh(set c | c in m_fd_contexts && c !in old(m_fd_contexts))
    {
      while |m_fd_contexts| < size
        invariant |old(m_fd_contexts)| <= |m_fd_contexts| <= size && Valid()
        invariant m_fd_contexts[..|old(m_fd_contexts)|] == old(m_fd_contexts)
        invariant forall i :: |old(m_fd_contexts)| <= i < |m_fd_contexts| ==> fresh(m_fd_contexts[i])
        invariant forall i :: |old(m_fd_contexts)| <= i < |m_fd_contexts| ==> m_fd_contexts[i].View() == L.Empty
      {
        var c := new FdContext(|m_fd_contexts|);
        m_fd_contexts := m_fd_contexts + [c];
      }
      assert forall i :: 0 <= i < |old(m_fd_contexts)| ==> m_fd_contexts[i] == old(m_fd_contexts)[i];
    }

    /** trigger_event() of one context and the decrement after it. */
    method Trigger(fd: nat, event: L.Event)
      requires Valid() && fd < |m_fd_contexts| && L.Has(m_fd_contexts[fd].events, event)
      modifies this`m_pending_event_count, this`woken, this`scheduled, m_fd_contexts[fd]
      ensures Valid() && View() == L.Trigger(old(View()), fd, event).0
      ensures scheduled == old(scheduled) + [L.SlotOf(old(m_fd_contexts[fd].View()), event)]
    {
      var slot := m_fd_contexts[fd].TriggerEvent(event);
      OneChanged(fd);
      scheduled := scheduled + [slot];
      m_pending_event_count := m_pending_event_count - 1;
      woken := woken + multiset{L.Reg(fd, event, slot)};
      assert Table() == old(Table())[fd := m_fd_contexts[fd].View()];
    }

    method DelEvent(fd: nat, event: L.Event, kernel: bool) returns (ok: bool)
      requires Valid()
      modifies this, m_fd_contexts
      ensures Valid() && scheduled == old(scheduled)
      ensures var (t, o) := L.DelEvent(old(View()), fd, event, kernel); View() == t && (ok <==> o == L.Ok)
    {
      if |m_fd_contexts| <= fd {
        return false;
      }
      var ctx := m_fd_contexts[fd];
      if !L.Has(ctx.events, event) {
        return false;
      }
      var newEvents := L.Cleared(ctx.View(), event).events;
      ok := EpollCtl(if newEvents != L.NONE then L.MOD else L.DEL, fd, newEvents, kernel);
      if !ok {
        assert Table() == old(Table());
        return false;
      }
      m_pending_event_count := m_pending_event_count - 1;
      deleted := deleted + multiset{L.Reg(fd, event, if event == L.READ then ctx.read else ctx.write)};
      ctx.events := newEvents;
      ctx.SetEventContext(event, L.Free);
      OneChanged(fd);
      return true;
    }

    method CancelEvent(fd: nat, event: L.Event, kernel: bool) returns (ok: bool)
      requires Valid()
      modifies this, m_fd_contexts
      ensures Valid()
      ensures var (t, o) := L.CancelEvent(old(View()), fd, event, kernel); View() == t && (ok <==> o == L.Ok)
      ensures scheduled == if ok then old(scheduled) + [L.SlotOf(old(Table())[fd], event)] else old(scheduled)
    {
      if |m_fd_contexts| <= fd {
        return false;
      }
      if !L.Has(m_fd_contexts[fd].events, event) {
        return false;
      }
      var newEvents := L.Cleared(m_fd_contexts[fd].View(), event).events;
      ok := EpollCtl(if newEvents != L.NONE then L.MOD else L.DEL, fd, newEvents, kernel);
      assert Table() == old(Table());
      if ok {
        Trigger(fd, event);
      }
    }

    /** add_event() once the table reaches the descriptor. */
    method AddInTable(fd: nat, event: L.Event, slot: L.Slot, kernel: bool) returns (outcome: L.Outcome)
      requires Valid() && fd < |m_fd_contexts|
      modifies this, m_fd_contexts[fd]
      ensures Valid() && scheduled == old(scheduled)
      ensures (View(), outcome) == L.AddInTable(old(View()), fd, event, slot, kernel) || outcome == L.Abort
      ensures outcome == L.AddInTable(old(View()), fd, event, slot, kernel).1
    {
      var ctx := m_fd_contexts[fd];
      if L.Has(ctx.events, event) {
        return L.Abort;
      }
      var mask := L.With(ctx.events, event);
      var ok := EpollCtl(if ctx.events != L.NONE then L.MOD else L.ADD, fd, mask, kernel);
      assert Table() == old(Table());
      if !ok {
        return L.Rejected;
      }
      if L.SlotOf(ctx.View(), event) != L.Free {
        return L.Abort;
      }
      m_pending_event_count := m_pending_event_count + 1;
      added := added + multiset{L.Reg(fd, event, slot)};
      ctx.events := mask;
      ctx.SetEventContext(event, slot);
      OneChanged(fd);
      return L.Ok;
    }

    method AddEvent(fd: nat, event: L.Event, slot: L.Slot, kernel: bool) returns (outcome: L.Outcome)
      requires Valid() && slot != L.Free
      modifies this, m_fd_contexts
      ensures outcome != L.Abort ==> Valid() && scheduled == old(scheduled)
      ensures outcome == L.AddEvent(old(View()), fd, event, slot, kernel).1
      ensures outcome != L.Abort ==> View() == L.AddEvent(old(View()), fd, event, slot, kernel).0
    {
      if |m_fd_contexts| <= fd {
        if fd * 3 / 2 <= fd {
          return L.Abort;      // no room even after the resize: out of bounds
        }
        ContextResize(fd * 3 / 2);
      }
      outcome := AddInTable(fd, event, slot, kernel);
    }

    /** Trigger each event of `es`, READ first; false where trigger_event()'s assertion fails. */
    method TriggerEach(fd: nat, es: L.Mask) returns (ok: bool)
      requires Valid() && fd < |m_fd_contexts|
      modifies this`m_pending_event_count, this`woken, this`scheduled, m_fd_contexts[fd]
      ensures Valid()
      ensures var (t, o) := L.TriggerAll(old(View()), fd, es); View() == t && (ok <==> o == L.Ok)
      ensures scheduled == old(scheduled) + Handed(old(Table())[fd], es)
    {
      if es.read {
        if !m_fd_contexts[fd].events.read {
          return false;
        }
        Trigger(fd, L.READ);
      }
      if es.write {
        if !m_fd_contexts[fd].events.write {
          return false;
        }
        Trigger(fd, L.WRITE);
      }
      return true;
    }

    method CancelAll(fd: nat, kernel: bool) returns (ok: bool)
      requires Valid()
      modifies this, m_fd_contexts
      ensures Valid()
      ensures var (t, o) := L.CancelAll(old(View()), fd, kernel); View() == t && (ok <==> o == L.Ok)
      ensures !ok ==> scheduled == old(scheduled)
      ensures ok ==> scheduled == old(scheduled) + Handed(old(Table())[fd], old(Table())[fd].events)
    {
      if |m_fd_contexts| <= fd {
        return false;
      }
      if m_fd_contexts[fd].events == L.NONE {
        return false;
      }
      ok := EpollCtl(L.DEL, fd, L.NONE, kernel);
      assert Table() == old(Table());
      if ok {
        ok := TriggerEach(fd, m_fd_contexts[fd].events);
      }
    }

    /** idle() on one reported descriptor. */
    method HandleReport(fd: nat, reported: L.Mask, error: bool, kernel: bool) returns (outcome: L.Outcome)
      requires Valid() && fd < |m_fd_contexts|
      modifies this, m_fd_contexts
      ensures Valid() && (View(), outcome) == L.IdleReport(old(View()), fd, reported, error, kernel)
      ensures outcome == L.Ok && error && L.Within(reported, old(Table())[fd].events) ==>
        var c := old(Table())[fd];
        && fd < |m_fd_contexts| && Table()[fd].events == L.NONE
        && scheduled == old(scheduled)
           + ((if c.events.read then [c.read] else []) + if c.events.write then [c.write] else [])
      ensures outcome == L.Rejected ==> scheduled == old(scheduled)
      ensures outcome != L.Rejected ==>
        scheduled == old(scheduled) + Handed(old(Table())[fd], L.RealEvents(old(Table())[fd], reported, error))
    {
      var ctx := m_fd_contexts[fd];
      ErrorHandsAll(View(), fd, reported, kernel);
      var happened := if error then L.Or(reported, ctx.events) else reported;
      if L.And(ctx.events, happened) == L.NONE {
        return L.Ok;
      }
      var left := L.Minus(ctx.events, happened);
      var ok := EpollCtl(if left != L.NONE then L.MOD else L.DEL, fd, left, kernel);
      assert Table() == old(Table());
      if !ok {
        return L.Rejected;
      }
      ok := TriggerEach(fd, happened);
      outcome := if ok then L.Ok else L.Abort;
    }
  }
}
