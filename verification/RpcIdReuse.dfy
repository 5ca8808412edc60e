/** What happens to an RPC call when a message outlives 2^32 - 1 later calls: the window of RpcCalls cannot be
    made one call wider (acid/rpc/rpc_client.h:215-221, acid/rpc/rpc_client.cpp:170-186). */
module RpcIdReuse {
  import opened RpcCalls

  /** A response under way whose id the next call will take, and no entry for it in the table. */
  predicate Collides(s: State, m: Msg) {
    && !s.closed && m in s.responses && m.of < |s.calls|
    && m.id == s.sequenceId && m.id !in s.handles
  }

  /** Then the next call may return the answer to the earlier one's request. */
  lemma CollisionCrosses(s: State, m: Msg) returns (t: State)
    requires Collides(s, m)
    ensures Enabled(s, Start) && Enabled(After(s, Start), Deliver(m))
    ensures Enabled(After(After(s, Start), Deliver(m)), Pop(|s.calls|))
    ensures t == After(After(After(s, Start), Deliver(m)), Pop(|s.calls|))
    ensures t.calls[|s.calls|] == Call(Empty, false, Popped(Answer(m.of))) && m.of != |s.calls|
  {
    t := After(After(After(s, Start), Deliver(m)), Pop(|s.calls|));
  }

  // ---- such a state is reached ----

  /** `k` calls have come and gone, and only the request of the first is still under way. */
  predicate Lingers(s: State, k: nat) {
    Quiet(s, k) && s.requests == {Msg(0, 0)}
  }

  predicate Quiet(s: State, k: nat) {
    && |s.calls| == k && s.sequenceId == IdOf(k) && s.handles == map[] && !s.closed && s.responses == {}
    && forall n :: 0 <= n < k ==> s.calls[n].stage.Returned?
  }

  lemma LingeringIsTimely(s: State, k: nat)
    requires Lingers(s, k) && k < IDS
    ensures Timely(s)
  {
    forall n: nat | Live(s, n) ensures k < n + IDS {
      assert !Unreturned(s, n);
    }
  }

  /** One call that times out and returns; its request, if asked for, gets lost. */
  lemma TimedOutCall(steps: seq<Step>, k: nat, lost: bool) returns (steps': seq<Step>)
    requires Quiet(Reached(steps), k) && Timely(Reached(steps)) && Msg(IdOf(k), k) !in Reached(steps).requests
    ensures Quiet(Reached(steps'), k + 1)
    ensures Reached(steps').requests
         == if lost then Reached(steps).requests else Reached(steps).requests + {Msg(IdOf(k), k)}
  {
    var s := Reached(steps);
    CallGivesUp(s, k);
    ReachedMore(steps, Start);
    ReachedMore(steps + [Start], Timeout(k));
    ReachedMore(steps + [Start] + [Timeout(k)], Pop(k));
    ReachedMore(steps + [Start] + [Timeout(k)] + [Pop(k)], Return(k));
    steps' := steps + [Start] + [Timeout(k)] + [Pop(k)] + [Return(k)];
    if lost {
      var m := Msg(IdOf(k), k);
      ReachedMore(steps', LoseRequest(m));
      steps' := steps' + [LoseRequest(m)];
    }
  }

  lemma CallGivesUp(s: State, k: nat)
    requires Quiet(s, k)
    ensures Enabled(After(s, Start), Timeout(k))
    ensures Enabled(After(After(s, Start), Timeout(k)), Pop(k))
    ensures Enabled(After(After(After(s, Start), Timeout(k)), Pop(k)), Return(k))
    ensures var t := After(After(After(After(s, Start), Timeout(k)), Pop(k)), Return(k));
      Quiet(t, k + 1) && t.requests == s.requests + {Msg(IdOf(k), k)}
  {
    NextId(k);
    assert map[IdOf(k) := k] - {IdOf(k)} == map[];
  }

  lemma {:induction false} ManyCalls(k: nat) returns (steps: seq<Step>)
    requires 1 <= k <= IDS
    ensures Lingers(Reached(steps), k)
  {
    if k == 1 {
      assert Timely(Initial);
      steps := TimedOutCall([], 0, false);
    } else {
      steps := ManyCalls(k - 1);
      LingeringIsTimely(Reached(steps), k - 1);
      steps := TimedOutCall(steps, k - 1, true);
    }
  }

  /**
    The bound is exact. There is a run in which every call but the last starts in time, and the last starts
    while the request of the first is just 2^32 - 1 calls old; it is the last that gets the first one's answer.
   */
  lemma ReuseCrosses() returns (steps: seq<Step>, t: State, n: nat)
    ensures var s := Reached(steps);
      && n == |s.calls| && n != 0 && Collides(s, Msg(0, 0))
      && (forall x: nat :: Live(s, x) ==> n <= x + IDS)
      && Enabled(After(s, Start), Deliver(Msg(0, 0)))
      && Enabled(After(After(s, Start), Deliver(Msg(0, 0))), Pop(n))
      && t == After(After(After(s, Start), Deliver(Msg(0, 0))), Pop(n))
    ensures n < |t.calls| && t.calls[n].stage == Popped(Answer(0))
  {
    steps := ManyCalls(IDS);
    ReachedMore(steps, Serve(Msg(0, 0)));
    steps := steps + [Serve(Msg(0, 0))];
    var s := Reached(steps);
    n := |s.calls|;
    t := CollisionCrosses(s, Msg(0, 0));
  }
}
