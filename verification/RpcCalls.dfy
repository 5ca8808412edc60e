/**
  How an RpcClient routes responses to calls (acid/rpc/rpc_client.h:196-256, acid/rpc/rpc_client.cpp:53-75 and
  170-186) over a connection whose server answers each request once and echoes its sequence id
  (acid/rpc/rpc_server.cpp:219-227). Requests and responses overtake one another at will and may be lost.

  Calls are numbered in the order in which they take their ids. A message also carries the number of its call:
  the program does not see that, it says which request is meant.
 */
module RpcCalls {
  import opened Options

  /** The ids run from 0 to 2^32 - 2: the counter is set back when it reaches UINT32_MAX. */
  const IDS: nat := 0xFFFF_FFFF

  datatype Msg = Msg(id: nat, of: nat)

  /** What a call's channel holds. Closing the client pushes a null pointer. */
  datatype Content = Empty | Answer(to: nat) | Null

  datatype Stage = Waiting | Popped(got: Content) | Returned(got: Content)

  datatype Call = Call(content: Content, shut: bool, stage: Stage)

  datatype State = State(
    sequenceId: nat,
    handles: map<nat, nat>,
    closed: bool,
    before: nat,  // how many calls had taken their ids when the client was closed
    calls: seq<Call>,
    requests: set<Msg>,
    responses: set<Msg>)

  const Initial: State := State(0, map[], false, 0, [], {}, {})

  datatype Step =
    | Start
    | Serve(m: Msg)
    | LoseRequest(m: Msg)
    | LoseResponse(m: Msg)
    | Deliver(m: Msg)
    | Timeout(n: nat)
    | Pop(n: nat)
    | Return(n: nat)
    | Close

  /** The id of the call with a number: the remainder by the number of ids, by counting. */
  function IdOf(n: nat): (id: nat)
    ensures id < IDS
  {
    if n < IDS then n else IdOf(n - IDS)
  }

  lemma {:induction false} IdIsRemainder(n: nat)
    ensures IdOf(n) == n % IDS
  {
    if n >= IDS {
      IdIsRemainder(n - IDS);
      assert n % IDS == (n - IDS) % IDS;
    }
  }

  /**
    The critical section of call(): an id is taken, and the channel put into the table; emplace leaves an entry
    alone that is there already. Then the request goes out, unless the client was closed since call() looked:
    the section does not look again.
   */
  function Started(s: State): State {
    var n, id := |s.calls|, s.sequenceId;
    s.(sequenceId := if id + 1 == IDS then 0 else id + 1,
       handles := if id in s.handles then s.handles else s.handles[id := n],
       calls := s.calls + [Call(Empty, false, Waiting)],
       requests := if s.closed then s.requests else s.requests + {Msg(id, n)})
  }

  /** handle_method_response: the channel found under the id gets the response, unless it is closed. */
  function Delivered(s: State, m: Msg): State {
    var t := s.(responses := s.responses - {m});
    if m.id in s.handles && s.handles[m.id] < |s.calls| && !s.calls[s.handles[m.id]].shut then
      var n := s.handles[m.id];
      t.(calls := s.calls[n := s.calls[n].(content := Answer(m.of))])
    else t
  }

  /** The push blocks, with the client's mutex held, while the channel of capacity 1 is full. */
  predicate Blocks(s: State, m: Msg) {
    && m.id in s.handles && s.handles[m.id] < |s.calls|
    && var c := s.calls[s.handles[m.id]];
    !c.shut && c.content != Empty
  }

  /** close(), the first time: every call in the table gets a null pointer; one that has its answer already
      keeps it, as the push waits for that to be popped. */
  function Closed(s: State): State {
    s.(closed := true, before := |s.calls|, handles := map[],
       calls := seq(|s.calls|, n requires 0 <= n < |s.calls| => Dismissed(s, n)))
  }

  function Dismissed(s: State, n: nat): Call
    requires n < |s.calls|
  {
    var c := s.calls[n];
    if Registered(s, n) && !c.shut && c.content == Empty then c.(content := Null) else c
  }

  predicate Registered(s: State, n: nat) {
    IdOf(n) in s.handles && s.handles[IdOf(n)] == n
  }

  /** A call that got its answer or its null pointer, or whose channel was closed by the timer, erases what
      its iterator points to: the entry under its id, whoever's it is. */
  function WithoutHandle(s: State, n: nat): State {
    if s.closed then s else s.(handles := s.handles - {IdOf(n)})
  }

  predicate Enabled(s: State, e: Step) {
    match e
    case Start => true
    case Serve(m) => m in s.requests
    case LoseRequest(m) => m in s.requests
    case LoseResponse(m) => m in s.responses
    case Deliver(m) => m in s.responses && !Blocks(s, m)
    case Timeout(n) => n < |s.calls| && !s.calls[n].stage.Returned?
    case Pop(n) =>
      n < |s.calls| && s.calls[n].stage.Waiting? && (s.calls[n].shut || s.calls[n].content != Empty)
    case Return(n) => n < |s.calls| && s.calls[n].stage.Popped?
    case Close => !s.closed
  }

  function WithCall(s: State, n: nat, c: Call): State
    requires n < |s.calls|
  {
    s.(calls := s.calls[n := c])
  }

  function After(s: State, e: Step): State
    requires Enabled(s, e)
  {
    match e
    case Start => Started(s)
    case Serve(m) => s.(requests := s.requests - {m}, responses := s.responses + {m})
    case LoseRequest(m) => s.(requests := s.requests - {m})
    case LoseResponse(m) => s.(responses := s.responses - {m})
    case Deliver(m) => Delivered(s, m)
    case Timeout(n) => WithCall(s, n, s.calls[n].(shut := true, content := Empty))
    case Pop(n) => WithCall(s, n, s.calls[n].(stage := Popped(s.calls[n].content), content := Empty))
    case Return(n) => WithCall(WithoutHandle(s, n), n, s.calls[n].(stage := Returned(s.calls[n].stage.got)))
    case Close => Closed(s)
  }

  // ---- what every step keeps ----

  predicate InFlight(s: State, n: nat) {
    Msg(IdOf(n), n) in s.requests || Msg(IdOf(n), n) in s.responses
  }

  predicate Unreturned(s: State, n: nat) {
    n < |s.calls| && !s.calls[n].stage.Returned?
  }

  /** A call that has not returned, or whose request or response is still under way. */
  predicate Live(s: State, n: nat) {
    InFlight(s, n) || Unreturned(s, n)
  }

  ghost predicate IdsTellLiveCallsApart(s: State) {
    forall x: nat, y: nat :: Live(s, x) && Live(s, y) && IdOf(x) == IdOf(y) ==> x == y
  }

  /** A message carries its call's id; once the client is closed, the table has no entry for it. */
  predicate Labelled(s: State, m: Msg) {
    m.of < |s.calls| && m.id == IdOf(m.of) && (s.closed ==> m.id !in s.handles)
  }

  predicate Entry(s: State, id: nat)
    requires id in s.handles
  {
    && s.handles[id] < |s.calls| && IdOf(s.handles[id]) == id
    && (!s.closed ==> Unreturned(s, s.handles[id]))
  }

  predicate Own(c: Content, n: nat) {
    c.Answer? ==> c.to == n
  }

  predicate Answered(c: Call) {
    || c.content.Answer? || (c.stage.Popped? && c.stage.got.Answer?) || (c.stage.Returned? && c.stage.got.Answer?)
  }

  /** The call holds no one else's answer, and no answer at all while its own is still to come. */
  predicate Served(s: State, n: nat)
    requires n < |s.calls|
  {
    var c := s.calls[n];
    && Own(c.content, n) && (c.stage.Waiting? || Own(c.stage.got, n))
    && (InFlight(s, n) ==> !Answered(c))
    && (c.content.Null? ==> s.closed && n < s.before)
    && (s.closed && n < s.before && c.stage.Waiting? ==> c.shut || c.content != Empty)
  }

  predicate Known(s: State, n: nat) {
    Unreturned(s, n) && !s.closed ==> Registered(s, n)
  }

  ghost predicate Inv(s: State) {
    && s.sequenceId == IdOf(|s.calls|) && (s.closed ==> s.before <= |s.calls|)
    && (forall m :: m in s.requests ==> Labelled(s, m) && m !in s.responses)
    && (forall m :: m in s.responses ==> Labelled(s, m))
    && (forall id :: id in s.handles ==> Entry(s, id))
    && (forall n :: 0 <= n < |s.calls| ==> Served(s, n) && Known(s, n))
    && IdsTellLiveCallsApart(s)
  }

  /** No call or message outlives 2^32 - 1 later calls: whatever is live when a call starts is younger. */
  ghost predicate Timely(s: State) {
    forall n: nat :: Live(s, n) ==> |s.calls| < n + IDS
  }

  lemma {:induction false} NextId(n: nat)
    ensures IdOf(n + 1) == if IdOf(n) + 1 == IDS then 0 else IdOf(n) + 1
  {
    if n >= IDS {
      NextId(n - IDS);
    }
  }

  lemma {:induction false} ApartWithinWindow(x: nat, n: nat)
    requires x < n < x + IDS
    ensures IdOf(x) != IdOf(n)
  {
    if x >= IDS {
      ApartWithinWindow(x - IDS, n - IDS);
    }
  }

  lemma MessagesAreLive(s: State, m: Msg)
    requires Inv(s) && (m in s.requests || m in s.responses)
    ensures InFlight(s, m.of) && Live(s, m.of)
  {
    assert Labelled(s, m);
    assert m == Msg(IdOf(m.of), m.of);
  }

  /** A response finds its own call in the table, if it finds one. */
  lemma ResponseFindsItsCall(s: State, m: Msg)
    requires Inv(s) && m in s.responses && m.id in s.handles
    ensures s.handles[m.id] == m.of && Unreturned(s, m.of) && !Blocks(s, m)
  {
    MessagesAreLive(s, m);
    assert Labelled(s, m);
    assert Entry(s, m.id);
    assert Live(s, s.handles[m.id]);
    assert Served(s, m.of);
  }

  /** So the receiver is never held up by a full channel. */
  lemma ReceiverNeverBlocks(s: State, m: Msg)
    requires Inv(s) && m in s.responses
    ensures !Blocks(s, m)
  {
    if m.id in s.handles {
      ResponseFindsItsCall(s, m);
    }
  }

  /** A call that starts in time takes an id that nothing live has. */
  lemma NewIdIsFree(s: State)
    requires Inv(s) && Timely(s)
    ensures forall n: nat :: Live(s, n) ==> n < |s.calls| && IdOf(n) != IdOf(|s.calls|)
    ensures !s.closed ==> IdOf(|s.calls|) !in s.handles
  {
    var k := |s.calls|;
    forall n: nat | Live(s, n) ensures n < k && IdOf(n) != IdOf(k) {
      if InFlight(s, n) {
        assert Labelled(s, Msg(IdOf(n), n));
      }
      ApartWithinWindow(n, k);
    }
    if IdOf(k) in s.handles && !s.closed {
      assert Entry(s, IdOf(k)) && Live(s, s.handles[IdOf(k)]);
      assert false;
    }
  }

  lemma StartKeepsInv(s: State, t: State)
    requires Inv(s) && Timely(s) && t == Started(s)
    ensures Inv(t)
  {
    NextId(|s.calls|);
    StartKeepsMessages(s, t);
    StartKeepsCalls(s, t);
    StartKeepsApart(s, t);
  }

  lemma StartKeepsMessages(s: State, t: State)
    requires Inv(s) && Timely(s) && t == Started(s)
    ensures forall m :: m in t.requests ==> Labelled(t, m) && m !in t.responses
    ensures forall m :: m in t.responses ==> Labelled(t, m)
    ensures forall id :: id in t.handles ==> Entry(t, id)
  {
    NewIdIsFree(s);
    forall m | m in t.requests || m in t.responses ensures Labelled(t, m) {
      if m in s.requests || m in s.responses {
        MessagesAreLive(s, m);
        assert Labelled(s, m);
      }
    }
    forall m | m in t.requests ensures m !in t.responses {
      assert m in s.responses ==> Labelled(s, m);
    }
    forall id | id in t.handles ensures Entry(t, id) {
      if id in s.handles {
        assert Entry(s, id);
      }
    }
  }

  lemma StartKeepsCalls(s: State, t: State)
    requires Inv(s) && Timely(s) && t == Started(s)
    ensures forall n :: 0 <= n < |t.calls| ==> Served(t, n) && Known(t, n)
  {
    NewIdIsFree(s);
    forall n | 0 <= n < |t.calls| ensures Served(t, n) && Known(t, n) {
      if n < |s.calls| {
        assert Served(s, n) && Known(s, n) && (InFlight(t, n) ==> InFlight(s, n));
        if Unreturned(t, n) {
          assert Unreturned(s, n) && Live(s, n);
        }
      }
    }
  }

  lemma StartKeepsApart(s: State, t: State)
    requires Inv(s) && Timely(s) && t == Started(s)
    ensures IdsTellLiveCallsApart(t)
  {
    NewIdIsFree(s);
    forall n: nat | Live(t, n) ensures n == |s.calls| || Live(s, n) {
      if Unreturned(t, n) && n != |s.calls| {
        assert Unreturned(s, n);
      }
    }
  }

  /** Moving or losing messages. */
  lemma TrafficKeepsInv(s: State, e: Step, t: State)
    requires Inv(s) && (e.Serve? || e.LoseRequest? || e.LoseResponse?) && Enabled(s, e) && t == After(s, e)
    ensures Inv(t)
  {
    forall n: nat | InFlight(t, n) ensures InFlight(s, n) {
    }
    forall n: nat | Live(t, n) ensures Live(s, n) {
      assert Unreturned(t, n) ==> Unreturned(s, n);
    }
    forall m | m in t.requests ensures Labelled(t, m) && m !in t.responses {
      assert Labelled(s, m);
    }
    forall m | m in t.responses ensures Labelled(t, m) {
      assert Labelled(s, m);
    }
    forall id | id in t.handles ensures Entry(t, id) {
      assert Entry(s, id);
    }
    forall n | 0 <= n < |t.calls| ensures Served(t, n) && Known(t, n) {
      assert Served(s, n) && Known(s, n);
    }
  }

  /** A step that changes one call's channel or stage, takes no new message into the network, and leaves the
      table alone. */
  lemma OneCallKeepsInv(s: State, n: nat, c: Call, t: State)
    requires Inv(s) && n < |s.calls| && (c.stage.Returned? <==> s.calls[n].stage.Returned?)
    requires t == s.(calls := s.calls[n := c], responses := t.responses) && t.responses <= s.responses
    requires Served(t, n)
    ensures Inv(t)
  {
    forall k: nat | Live(t, k) ensures Live(s, k) {
      assert Unreturned(t, k) ==> Unreturned(s, k);
    }
    forall m | m in t.requests ensures Labelled(t, m) && m !in t.responses {
      assert Labelled(s, m);
    }
    forall m | m in t.responses ensures Labelled(t, m) {
      assert Labelled(s, m);
    }
    forall id | id in t.handles ensures Entry(t, id) {
      assert Entry(s, id);
    }
    forall k | 0 <= k < |t.calls| ensures Served(t, k) && Known(t, k) {
      assert Served(s, k) && Known(s, k);
      assert InFlight(t, k) ==> InFlight(s, k);
    }
  }

  lemma DeliverKeepsInv(s: State, m: Msg, t: State)
    requires Inv(s) && m in s.responses && t == Delivered(s, m)
    ensures Inv(t)
  {
    MessagesAreLive(s, m);
    assert Labelled(s, m);
    var n := m.of;
    if m.id in s.handles {
      ResponseFindsItsCall(s, m);
    }
    assert !InFlight(t, n);
    assert Served(s, n);
    OneCallKeepsInv(s, n, t.calls[n], t);
  }

  lemma CallerKeepsInv(s: State, e: Step, t: State)
    requires Inv(s) && (e.Timeout? || e.Pop?) && Enabled(s, e) && t == After(s, e)
    ensures Inv(t)
  {
    assert Served(s, e.n);
    OneCallKeepsInv(s, e.n, t.calls[e.n], t);
  }

  lemma ReturnKeepsInv(s: State, n: nat, t: State)
    requires Inv(s) && Enabled(s, Return(n)) && t == After(s, Return(n))
    ensures Inv(t)
  {
    assert Known(s, n) && Unreturned(s, n);
    forall k: nat | Live(t, k) ensures Live(s, k) {
      assert Unreturned(t, k) ==> Unreturned(s, k);
    }
    forall m | m in t.requests ensures Labelled(t, m) && m !in t.responses {
      assert Labelled(s, m);
    }
    forall m | m in t.responses ensures Labelled(t, m) {
      assert Labelled(s, m);
    }
    forall id | id in t.handles ensures Entry(t, id) {
      assert Entry(s, id);
    }
    forall k | 0 <= k < |t.calls| ensures Served(t, k) && Known(t, k) {
      assert Served(s, k) && Known(s, k);
      if Unreturned(t, k) {
        assert k != n && Live(s, k) && Live(s, n);
      }
    }
  }

  lemma CloseKeepsInv(s: State, t: State)
    requires Inv(s) && !s.closed && t == Closed(s)
    ensures Inv(t)
  {
    forall k: nat ensures Unreturned(t, k) <==> Unreturned(s, k) {
      if k < |s.calls| {
        assert t.calls[k] == Dismissed(s, k);
      }
    }
    forall m | m in t.requests ensures Labelled(t, m) && m !in t.responses {
      assert Labelled(s, m);
    }
    forall m | m in t.responses ensures Labelled(t, m) {
      assert Labelled(s, m);
    }
    forall k | 0 <= k < |t.calls| ensures Served(t, k) && Known(t, k) {
      assert Served(s, k) && t.calls[k] == Dismissed(s, k);
    }
  }

  lemma StepKeepsInv(s: State, e: Step)
    requires Inv(s) && Enabled(s, e) && (e.Start? ==> Timely(s))
    ensures Inv(After(s, e))
  {
    var t := After(s, e);
    match e {
      case Start => StartKeepsInv(s, t);
      case Serve(_) => TrafficKeepsInv(s, e, t);
      case LoseRequest(_) => TrafficKeepsInv(s, e, t);
      case LoseResponse(_) => TrafficKeepsInv(s, e, t);
      case Deliver(m) => DeliverKeepsInv(s, m, t);
      case Timeout(_) => CallerKeepsInv(s, e, t);
      case Pop(_) => CallerKeepsInv(s, e, t);
      case Return(n) => ReturnKeepsInv(s, n, t);
      case Close => CloseKeepsInv(s, t);
    }
  }

  // ---- runs ----

  /** A step that may be taken: it is possible, and a call starts only while whatever is live has seen fewer
      than 2^32 - 1 later calls. */
  ghost predicate Admitted(s: State, e: Step) {
    Enabled(s, e) && (e.Start? ==> Timely(s))
  }

  /** The state after any steps whatever, those skipped that may not be taken. */
  ghost function Reached(steps: seq<Step>): (s: State) {
    if steps == [] then Initial
    else
      var s, e := Reached(steps[..|steps| - 1]), steps[|steps| - 1];
      if Admitted(s, e) then After(s, e) else s
  }

  lemma {:induction false} RunKeepsInv(steps: seq<Step>)
    ensures Inv(Reached(steps))
  {
    if steps != [] {
      var s, e := Reached(steps[..|steps| - 1]), steps[|steps| - 1];
      RunKeepsInv(steps[..|steps| - 1]);
      if Admitted(s, e) {
        StepKeepsInv(s, e);
      }
    }
  }

  /** What a call makes of its channel: a time-out if the timer closed it, even if the response came before
      that; no connection for a null pointer. */
  datatype Result = Response(to: nat) | TimedOut | ConnectionClosed

  function ResultOf(c: Call): (r: Result)
    requires c.stage.Returned?
  {
    if c.shut then TimedOut
    else if c.stage.got.Answer? then Response(c.stage.got.to)
    else ConnectionClosed
  }

  /**
    No cross-talk: for any number of concurrent calls, and any order in which requests are served and responses
    arrive, the response that a call returns answers its own request; and the receiver is never held up.
   */
  lemma CallsNeverCross(steps: seq<Step>)
    ensures var s := Reached(steps);
      && (forall n :: 0 <= n < |s.calls| && s.calls[n].stage.Returned? && ResultOf(s.calls[n]).Response? ==>
        ResultOf(s.calls[n]).to == n)
      && (forall m :: m in s.responses ==> !Blocks(s, m))
  {
    var s := Reached(steps);
    RunKeepsInv(steps);
    forall n | 0 <= n < |s.calls| && s.calls[n].stage.Returned? && ResultOf(s.calls[n]).Response?
      ensures ResultOf(s.calls[n]).to == n
    {
      assert Served(s, n);
    }
    forall m | m in s.responses ensures !Blocks(s, m) {
      ReceiverNeverBlocks(s, m);
    }
  }

  // ---- what becomes of a call ----

  lemma ReachedMore(steps: seq<Step>, e: Step)
    requires Admitted(Reached(steps), e)
    ensures Reached(steps + [e]) == After(Reached(steps), e)
  {
    assert (steps + [e])[..|steps|] == steps;
  }

  /** A call of an open client is registered under its id with an empty channel, and its request is under way. */
  lemma StartSends(steps: seq<Step>)
    requires !Reached(steps).closed && Timely(Reached(steps))
    ensures var n, t := |Reached(steps).calls|, Reached(steps + [Start]);
      && |t.calls| == n + 1 && t.calls[n] == Call(Empty, false, Waiting) && t.calls[..n] == Reached(steps).calls
      && IdOf(n) in t.handles && t.handles[IdOf(n)] == n && !t.closed
      && Msg(IdOf(n), n) in t.requests
  {
    RunKeepsInv(steps);
    NewIdIsFree(Reached(steps));
    ReachedMore(steps, Start);
  }

  /** A request that is served is answered under its id. */
  lemma ServeAnswers(steps: seq<Step>, m: Msg)
    requires m in Reached(steps).requests
    ensures var s, t := Reached(steps), Reached(steps + [Serve(m)]);
      m in t.responses && m !in t.requests && t.calls == s.calls && t.handles == s.handles && t.closed == s.closed
  {
    ReachedMore(steps, Serve(m));
  }

  /** A response that is there for a waiting call of an open client is delivered into its channel, popped and
      returned: the call answers with the response to its own request, and its entry is gone. */
  lemma AnswerIsReturned(steps: seq<Step>, n: nat)
    requires var s := Reached(steps);
      !s.closed && n < |s.calls| && s.calls[n] == Call(Empty, false, Waiting) && Msg(IdOf(n), n) in s.responses
    ensures var s, t := Reached(steps), Reached(steps + [Deliver(Msg(IdOf(n), n))] + [Pop(n)] + [Return(n)]);
      && |t.calls| == |s.calls| && t.calls[n] == Call(Empty, false, Returned(Answer(n)))
      && ResultOf(t.calls[n]) == Response(n)
      && IdOf(n) !in t.handles && Msg(IdOf(n), n) !in t.responses
  {
    var s, m := Reached(steps), Msg(IdOf(n), n);
    RunKeepsInv(steps);
    assert Served(s, n) && Known(s, n);
    ReachedMore(steps, Deliver(m));
    ReachedMore(steps + [Deliver(m)], Pop(n));
    ReachedMore(steps + [Deliver(m)] + [Pop(n)], Return(n));
  }

  /** A call whose timer goes off while it waits returns a time-out, and its entry is gone while the client is
      open. */
  lemma TimeoutIsReturned(steps: seq<Step>, n: nat)
    requires var s := Reached(steps); n < |s.calls| && s.calls[n].stage.Waiting?
    ensures var t := Reached(steps + [Timeout(n)]); n < |t.calls| && t.calls[n] == Call(Empty, true, Waiting)
    ensures var t := Reached(steps + [Timeout(n)] + [Pop(n)] + [Return(n)]);
      && n < |t.calls| && t.calls[n] == Call(Empty, true, Returned(Empty)) && ResultOf(t.calls[n]) == TimedOut
      && (!t.closed ==> IdOf(n) !in t.handles)
  {
    ReachedMore(steps, Timeout(n));
    ReachedMore(steps + [Timeout(n)], Pop(n));
    ReachedMore(steps + [Timeout(n)] + [Pop(n)], Return(n));
  }

  /** Closing gives every unreturned call whose channel is open and empty a null pointer, changes no other call,
      and empties the table; so none of the calls there are is stranded. */
  lemma CloseWakesEveryCall(steps: seq<Step>)
    requires !Reached(steps).closed
    ensures var s, t := Reached(steps), Reached(steps + [Close]);
      && t.closed && t.before == |s.calls| == |t.calls| && t.handles == map[]
      && t.requests == s.requests && t.responses == s.responses
      && (forall n :: 0 <= n < |s.calls| ==>
        t.calls[n] == if !s.calls[n].stage.Returned? && !s.calls[n].shut && s.calls[n].content == Empty
                      then s.calls[n].(content := Null) else s.calls[n])
      && forall n :: 0 <= n < |s.calls| ==> !Stranded(t, n)
  {
    var s := Reached(steps);
    RunKeepsInv(steps);
    ReachedMore(steps, Close);
    forall n | 0 <= n < |s.calls|
      ensures Closed(s).calls[n] == if !s.calls[n].stage.Returned? && !s.calls[n].shut && s.calls[n].content == Empty
                                    then s.calls[n].(content := Null) else s.calls[n]
    {
      assert Known(s, n) && Served(s, n);
      assert IdOf(n) in s.handles ==> Entry(s, IdOf(n));
    }
  }

  /** A call that waits when the client is closed, with nothing in its channel, returns that it was closed. */
  lemma ClosedIsReturned(steps: seq<Step>, n: nat)
    requires var s := Reached(steps); !s.closed && n < |s.calls| && s.calls[n] == Call(Empty, false, Waiting)
    ensures var t := Reached(steps + [Close] + [Pop(n)] + [Return(n)]);
      n < |t.calls| && t.calls[n].stage.Returned? && ResultOf(t.calls[n]) == ConnectionClosed
  {
    CloseWakesEveryCall(steps);
    ReachedMore(steps + [Close], Pop(n));
    ReachedMore(steps + [Close] + [Pop(n)], Return(n));
  }

  /** Closing leaves no call waiting that had its id by then: it has something to pop, or its channel is shut,
      or it has popped. */
  lemma CloseLeavesNoOneWaiting(steps: seq<Step>)
    ensures var s := Reached(steps);
      forall n :: 0 <= n < |s.calls| && s.closed && n < s.before && s.calls[n].stage.Waiting? ==>
        s.calls[n].shut || s.calls[n].content != Empty
  {
    var s := Reached(steps);
    RunKeepsInv(steps);
    forall n | 0 <= n < |s.calls| && s.closed && n < s.before && s.calls[n].stage.Waiting?
      ensures s.calls[n].shut || s.calls[n].content != Empty
    {
      assert Served(s, n);
    }
  }

  /** A call in a closed client that nothing wakes: it has nothing to pop and its channel is open. */
  predicate Stranded(s: State, n: nat) {
    && s.closed && n < |s.calls|
    && s.calls[n] == Call(Empty, false, Waiting)
  }

  /**
    A call that takes its id after the client was closed is registered, but not sent: it is stranded, and only
    its timer can end that. Calls that had their ids before are never stranded.
   */
  lemma StrandedIff(steps: seq<Step>, e: Step, n: nat)
    requires Enabled(Reached(steps), e)
    ensures var s, t := Reached(steps), After(Reached(steps), e);
      && (Stranded(s, n) ==> s.before <= n)
      && (Stranded(s, n) ==> (Stranded(t, n) <==> e != Timeout(n)))
      && (s.closed && e == Start ==> Stranded(t, |s.calls|))
  {
    var s := Reached(steps);
    RunKeepsInv(steps);
    if n < |s.calls| {
      assert Served(s, n);
    }
    if e.Deliver? {
      assert Labelled(s, e.m);
    }
  }
}
