/** acid/rpc/rpc_client.h:196-256 and acid/rpc/rpc_client.cpp:53-75,170-186: the client's table of calls as an
    object, each critical section a method. Its methods do to the table what the steps of RpcCalls do. */
module RpcClients {
  import opened RpcCalls

  /** The channel of one call, with room for one response. The number of the call is not in the program. */
  class CallChannel {
    ghost const number: nat
    var content: Content
    var shut: bool

    constructor (ghost number: nat)
      ensures this.number == number && content == Empty && !shut
    {
      this.number := number;
      content, shut := Empty, false;
    }

    /** push, which does not block here */
    method Push(v: Content)
      requires shut || content == Empty
      modifies this
      ensures shut == old(shut) && content == if shut then old(content) else v
    {
      if !shut {
        content := v;
      }
    }

    /** The push of a null pointer by close(). Into a full channel it goes when the response has been popped,
        and then no one looks any more. */
    method PushNull()
      modifies this
      ensures shut == old(shut)
      ensures content == if !shut && old(content) == Empty then Null else old(content)
    {
      if !shut && content == Empty {
        content := Null;
      }
    }

    /** The timer's close(): what is queued is dropped. */
    method Close()
      modifies this
      ensures shut && content == Empty
    {
      shut, content := true, Empty;
    }
  }

  /** The channels of a table. */
  ghost function Channels(table: map<nat, CallChannel>): set<CallChannel> {
    set id | id in table :: table[id]
  }

  class RpcClient {
    var m_sequence_id: nat
    var m_response_handle: map<nat, CallChannel>
    var m_is_close: bool
    ghost var channels: seq<CallChannel>

    /** Every call that took an id has its channel, and the table names channels of calls by their ids. */
    ghost predicate Valid()
      reads this`m_sequence_id, this`m_response_handle, this`channels
    {
      && m_sequence_id == IdOf(|channels|)
      && (forall n :: 0 <= n < |channels| ==> channels[n].number == n)
      && forall id :: id in m_response_handle ==>
        && m_response_handle[id].number < |channels| && IdOf(m_response_handle[id].number) == id
        && m_response_handle[id] == channels[m_response_handle[id].number]
    }

    /** The table with channels replaced by the numbers of their calls. */
    ghost function Table(): map<nat, nat>
      reads this`m_response_handle
    {
      map id | id in m_response_handle :: m_response_handle[id].number
    }

    /** The object is in the state of the step system, messages and the stages of calls apart. */
    ghost predicate Shows(s: State)
      reads this, channels
    {
      && Valid() && m_sequence_id == s.sequenceId && Table() == s.handles && m_is_close == s.closed
      && |channels| == |s.calls|
      && forall n :: 0 <= n < |channels| ==>
        channels[n].content == s.calls[n].content && channels[n].shut == s.calls[n].shut
    }

    constructor ()
      ensures Valid() && Table() == map[] && !m_is_close && channels == [] && Shows(Initial)
    {
      m_sequence_id, m_response_handle, m_is_close, channels := 0, map[], false, [];
    }

    /** The first critical section of call(): an id, and the channel under it unless there is one. */
    method Register(ghost s: State) returns (id: nat, channel: CallChannel)
      requires Shows(s)
      modifies this
      ensures Shows(Started(s))
      ensures channel.content == Empty && !channel.shut && m_is_close == old(m_is_close)
      ensures m_response_handle
           == if id in old(m_response_handle) then old(m_response_handle) else old(m_response_handle)[id := channel]
      ensures fresh(channel) && channels == old(channels) + [channel] && id == IdOf(|old(channels)|)
    {
      channel := new CallChannel(|channels|);
      id := m_sequence_id;
      Enter(channel, s);
      TakeId(|s.calls|);
    }

    method TakeId(ghost n: nat)
      requires m_sequence_id == IdOf(n)
      modifies this`m_sequence_id
      ensures m_sequence_id == IdOf(n + 1) == if IdOf(n) + 1 == IDS then 0 else IdOf(n) + 1
    {
      m_sequence_id := m_sequence_id + 1;
      if m_sequence_id == IDS {
        m_sequence_id := 0;
      }
      NextId(n);
    }

    /** The emplacement in the table. */
    method Enter(channel: CallChannel, ghost s: State)
      requires Shows(s) && channel.number == |channels| && channel !in channels
      requires channel.content == Empty && !channel.shut
      modifies this`m_response_handle, this`channels
      ensures channels == old(channels) + [channel]
      ensures Table() == Started(s).handles
      ensures m_response_handle == if m_sequence_id in old(m_response_handle) then old(m_response_handle)
                                   else old(m_response_handle)[m_sequence_id := channel]
      ensures forall id :: id in m_response_handle ==>
        && m_response_handle[id].number < |channels| && IdOf(m_response_handle[id].number) == id
        && m_response_handle[id] == channels[m_response_handle[id].number]
    {
      if m_sequence_id !in m_response_handle {
        m_response_handle := m_response_handle[m_sequence_id := channel];
      }
      channels := channels + [channel];
    }

    /** handle_method_response: the channel under the id, if there is one, gets the response. */
    method HandleMethodResponse(m: Msg, ghost s: State)
      requires Shows(s) && !Blocks(s, m)
      modifies if m.id in m_response_handle then {m_response_handle[m.id]} else {}
      ensures Shows(Delivered(s, m))
      ensures m.id in m_response_handle ==>
        var c := m_response_handle[m.id];
        c.shut == old(c.shut) && c.content == if c.shut then old(c.content) else Answer(m.of)
    {
      if m.id in m_response_handle {
        m_response_handle[m.id].Push(Answer(m.of));
      }
    }

    /** The second critical section of call(). */
    method Unregister(id: nat, ghost n: nat, ghost s: State)
      requires Shows(s) && id == IdOf(n)
      modifies this`m_response_handle
      ensures Shows(WithoutHandle(s, n))
      ensures m_response_handle == if m_is_close then old(m_response_handle) else old(m_response_handle) - {id}
    {
      if !m_is_close {
        m_response_handle := m_response_handle - {id};
      }
    }

    /** close(): every channel in the table gets a null pointer, and the table is emptied. */
    method Close(ghost s: State)
      requires Shows(s)
      modifies this`m_is_close, this`m_response_handle, Channels(m_response_handle)
      ensures Shows(if s.closed then s else Closed(s)) && m_is_close
      ensures !old(m_is_close) ==> m_response_handle == map[]
      ensures old(m_is_close) ==> m_response_handle == old(m_response_handle)
      ensures forall c :: c in Channels(old(m_response_handle)) ==>
        && c.shut == old(c.shut)
        && c.content == if !old(m_is_close) && !c.shut && old(c.content) == Empty then Null else old(c.content)
    {
      if m_is_close {
        return;
      }
      m_is_close := true;
      DismissCalls(s);
      m_response_handle := map[];
    }

    /** In the terms of the model: the registered calls whose channels are open and empty get a null pointer. */
    method DismissCalls(ghost s: State)
      requires Valid() && Table() == s.handles && |channels| == |s.calls|
      requires forall n :: 0 <= n < |channels| ==>
        channels[n].content == s.calls[n].content && channels[n].shut == s.calls[n].shut
      modifies Channels(m_response_handle)
      ensures forall n :: 0 <= n < |channels| ==>
        channels[n].content == Dismissed(s, n).content && channels[n].shut == Dismissed(s, n).shut
      ensures forall c :: c in Channels(m_response_handle) ==>
        && c.shut == old(c.shut)
        && c.content == if !c.shut && old(c.content) == Empty then Null else old(c.content)
    {
      InTable(s);
      DismissAll();
    }

    lemma InTable(s: State)
      requires Valid() && Table() == s.handles && |channels| == |s.calls|
      ensures forall n :: 0 <= n < |channels| ==>
        (channels[n] in Channels(m_response_handle) <==> Registered(s, n))
    {
      forall n | 0 <= n < |channels|
        ensures channels[n] in Channels(m_response_handle) <==> Registered(s, n)
      {
        if Registered(s, n) {
          assert IdOf(n) in Table();
        }
      }
    }

    method DismissAll()
      requires Valid()
      modifies Channels(m_response_handle)
      ensures forall c :: c in Channels(m_response_handle) ==>
        && c.shut == old(c.shut)
        && c.content == if !c.shut && old(c.content) == Empty then Null else old(c.content)
    {
      var left := m_response_handle.Keys;
      while left != {}
        invariant left <= m_response_handle.Keys
        invariant forall id :: id in m_response_handle ==>
          var c := m_response_handle[id];
          && c.shut == old(c.shut)
          && c.content == if id !in left && !c.shut && old(c.content) == Empty then Null else old(c.content)
        decreases |left|
      {
        var id :| id in left;
        m_response_handle[id].PushNull();
        left := left - {id};
      }
    }
  }
}
