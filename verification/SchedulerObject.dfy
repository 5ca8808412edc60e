/**
  The scheduler and its fibers as the objects of the source (acid/common/scheduler.h, fiber.h): the task
  list with the scanning loop of run(), and the fiber's state changes.
 */
module SchedulerObject {
  import opened Options
  import opened Scheduling

  /** acid/common/fiber.cpp: the assertions of resume(), yield() and reset() are preconditions. */
  class Fiber {
    const m_id: Fid
    var m_state: FiberState
    var m_callback: Option<nat>

    constructor (id: Fid, callback: nat)
      ensures m_id == id && m_state == READY && m_callback == Some(callback)
    {
      m_id, m_state, m_callback := id, READY, Some(callback);
    }

    method Resume()
      requires m_state != TERM && m_state != RUNNING
      modifies this`m_state
      ensures m_state == RUNNING
    {
      m_state := RUNNING;
    }

    /** A finished fiber stays finished; a running one becomes ready again. */
    method Yield()
      requires m_state == RUNNING || m_state == TERM
      modifies this`m_state
      ensures m_state == if old(m_state) == TERM then TERM else READY
    {
      if m_state != TERM {
        m_state := READY;
      }
    }

    /** The end of main_func: the callback is dropped and the fiber yields for good. */
    method Finish()
      requires m_state == RUNNING
      modifies this
      ensures m_state == TERM && m_callback.None?
    {
      m_callback := None;
      m_state := TERM;
      Yield();
    }

    method Reset(callback: nat)
      requires m_state == TERM
      modifies this
      ensures m_state == READY && m_callback == Some(callback)
    {
      m_callback := Some(callback);
      m_state := READY;
    }
  }

  class Scheduler {
    var m_tasklist: seq<Task>
    var m_active_thread_count: nat
    var m_stopping: bool
    var heap: map<Fid, Fiber>       // the fibers the list's pointers lead to

    ghost function States(): map<Fid, FiberState>
      reads this, heap.Values
    {
      map f | f in heap :: heap[f].m_state
    }

    constructor ()
      ensures m_tasklist == [] && m_active_thread_count == 0 && !m_stopping && heap == map[]
    {
      m_tasklist, m_active_thread_count, m_stopping, heap := [], 0, false, map[];
    }

    /** schedule_without_lock() of a non-null task: tickle only an empty list. */
    method Schedule(task: Task) returns (needTickle: bool)
      modifies this`m_tasklist
      ensures m_tasklist == old(m_tasklist) + [task]
      ensures needTickle <==> old(m_tasklist) == []
    {
      needTickle := m_tasklist == [];
      m_tasklist := m_tasklist + [task];
    }

    method CanStart(task: Task) returns (ok: bool)
      ensures ok <==> !Busy(task, States())
    {
      match task.work
      case CallbackWork(_) => return true;
      case FiberWork(f) =>
        if f !in heap {
          return true;
        }
        return heap[f].m_state != RUNNING;
    }

    /** The scan of run() under the lock: takes the earliest task this thread may start. */
    method TakeTask(tid: Tid) returns (task: Option<Task>, tickleMe: bool)
      modifies this`m_tasklist, this`m_active_thread_count
      ensures var n := FirstEligible(old(m_tasklist), tid, States());
        if n < |old(m_tasklist)| then
          && task == Some(old(m_tasklist)[n])
          && m_tasklist == RemoveAt(old(m_tasklist), n)
          && m_active_thread_count == old(m_active_thread_count) + 1
        else
          task.None? && m_tasklist == old(m_tasklist) && m_active_thread_count == old(m_active_thread_count)
      ensures task.Some? ==>
        && (task.value.thread.Some? ==> task.value.thread.value == tid)
        && (task.value.work.FiberWork? && task.value.work.f in heap ==> heap[task.value.work.f].m_state != RUNNING)
      ensures task.None? ==> forall t :: t in m_tasklist ==> PassedOver(t, tid, States())
      ensures tickleMe <==> TickleAfter(old(m_tasklist), tid, States())
      ensures var n := FirstEligible(old(m_tasklist), tid, States());
        tickleMe <==>
          || n + 1 < |old(m_tasklist)|
          || exists t :: t in old(m_tasklist)[..n] && t.thread.Some? && t.thread.value != tid
    {
      task, tickleMe := None, false;
      var it := 0;
      while it < |m_tasklist| && task.None?
        invariant it <= |old(m_tasklist)|
        invariant task.None? ==>
          && m_tasklist == old(m_tasklist) && m_active_thread_count == old(m_active_thread_count)
          && (forall i :: 0 <= i < it ==> !Eligible(m_tasklist[i], tid, States()))
        invariant task.Some? ==>
          && it < |old(m_tasklist)| && task == Some(old(m_tasklist)[it]) && Eligible(old(m_tasklist)[it], tid, States())
          && m_tasklist == RemoveAt(old(m_tasklist), it)
          && m_active_thread_count == old(m_active_thread_count) + 1
          && (forall i :: 0 <= i < it ==> !Eligible(old(m_tasklist)[i], tid, States()))
        invariant tickleMe <==> exists i :: 0 <= i < it && !Mine(old(m_tasklist)[i], tid)
        decreases |old(m_tasklist)| - it, task.None?
      {
        var candidate := m_tasklist[it];
        if candidate.thread.Some? && candidate.thread != Some(tid) {
          it := it + 1;
          tickleMe := true;
        } else {
          var ok := CanStart(candidate);
          if !ok {
            it := it + 1;
          } else {
            task := Some(candidate);
            m_tasklist := m_tasklist[..it] + m_tasklist[it + 1..];
            m_active_thread_count := m_active_thread_count + 1;
          }
        }
      }
      FirstEligibleIs(old(m_tasklist), tid, States(), it);
      tickleMe := tickleMe || it < |m_tasklist|;
    }

    method Stopping() returns (b: bool)
      ensures b <==> m_stopping && m_tasklist == [] && m_active_thread_count == 0
    {
      b := m_stopping && m_tasklist == [] && m_active_thread_count == 0;
    }
  }

  lemma {:induction false} FirstEligibleIs(q: seq<Task>, tid: Tid, fibers: map<Fid, FiberState>, n: nat)
    requires n <= |q|
    requires forall i :: 0 <= i < n ==> !Eligible(q[i], tid, fibers)
    requires n < |q| ==> Eligible(q[n], tid, fibers)
    ensures FirstEligible(q, tid, fibers) == n
  {
    if n > 0 {
      FirstEligibleIs(q[1..], tid, fibers, n - 1);
    }
  }
}
