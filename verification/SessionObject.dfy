/** acid/rpc/rpc_session.cpp:8-50 on a byte stream, with the transfer loops of acid/common/stream.cpp:5-57 and
    the codec of acid/rpc/protocol.cpp:22-59 on real arrays. */
module Sessions {
  import opened Chunks
  import opened Varints
  import opened ByteArrays
  import opened Framing
  import opened Options
  import BlockReads

  /** One end of a connection. A transfer moves as much as the network likes, but at least one byte; or it
      meets the end of the stream; or it fails, on a connection that is not reliable. */
  class Stream {
    const reliable: bool
    var incoming: seq<Byte>
    var outgoing: seq<Byte>
    var failed: bool

    constructor (incoming: seq<Byte>, reliable: bool)
      ensures this.incoming == incoming && outgoing == [] && !failed && this.reliable == reliable
    {
      this.reliable := reliable;
      this.incoming, outgoing, failed := incoming, [], false;
    }

    /** A failure stays, and is none of a reliable connection's. */
    twostate predicate Honest()
      reads this
    {
      (old(failed) ==> failed) && (reliable && !old(failed) ==> !failed)
    }

    /** The result of a transfer is the number of bytes, 0 at the end, or -1 on failure, as a signed number. */
    method Recv(length: nat) returns (result: int, b: seq<Byte>)
      requires length > 0
      modifies this`incoming, this`failed
      ensures old(incoming) == b + incoming && |b| <= length
      ensures result == if |b| > 0 then |b| else if failed then -1 else 0
      ensures |b| > 0 ==> failed == old(failed)
      ensures result == 0 ==> incoming == []
      ensures Honest()
    {
      var broken := *;
      if failed || (broken && !reliable) {
        failed := true;
        return -1, [];
      }
      if incoming == [] {
        return 0, [];
      }
      var n: nat :| 1 <= n <= length && n <= |incoming|;
      b := incoming[..n];
      incoming := incoming[n..];
      result := n;
    }

    method Send(b: seq<Byte>) returns (result: int)
      requires |b| > 0
      modifies this`outgoing, this`failed
      ensures -1 <= result <= |b|
      ensures result > 0 ==> outgoing == old(outgoing) + b[..result] && failed == old(failed)
      ensures result <= 0 ==> outgoing == old(outgoing) && failed
      ensures Honest()
    {
      var broken := *;
      if failed || (broken && !reliable) {
        failed := true;
        return -1;
      }
      var n: nat :| 1 <= n <= |b|;
      outgoing := outgoing + b[..n];
      result := n;
    }

    /** read_fix_size(buffer, length) */
    method ReadFixSize(length: nat) returns (result: int, buffer: seq<Byte>)
      modifies this`incoming, this`failed
      ensures old(incoming) == buffer + incoming && |buffer| <= length
      ensures result > 0 ==> |buffer| == length == result && failed == old(failed)
      ensures result <= 0 && !failed && length > 0 ==> |old(incoming)| < length && incoming == []
      ensures length == 0 ==> result == 0
      ensures Honest()
    {
      var left := length;
      buffer := [];
      while left > 0
        invariant left >= 0 && |buffer| + left == length && old(incoming) == buffer + incoming
        invariant failed == old(failed)
      {
        var len, b := Recv(left);
        if len <= 0 {
          return len, buffer;
        }
        buffer := buffer + b;
        left := left - len;
      }
      result := length;
    }

    /** read_fix_size(byte_array, length), appending to an array whose position is at its size. What the
        vectors of a transfer would take and set_position then covers, is written here. */
    method ReadFixSizeInto(a: ByteArray, length: nat) returns (result: int, ghost buffer: seq<Byte>)
      requires a.Valid() && a.m_position == a.m_size && this !in a.Repr
      modifies this`incoming, this`failed, a.Repr
      ensures a.Valid() && a.m_position == a.m_size && fresh(a.Repr - old(a.Repr))
      ensures a.Contents() == old(a.Contents()) + buffer
      ensures old(a.m_position) + length <= old(a.m_capacity) ==> a.m_capacity == old(a.m_capacity)
      ensures old(incoming) == buffer + incoming && |buffer| <= length
      ensures result > 0 ==> |buffer| == length == result && failed == old(failed)
      ensures result <= 0 && !failed && length > 0 ==> |old(incoming)| < length && incoming == []
      ensures length == 0 ==> result == 0
      ensures Honest()
    {
      var left := length;
      buffer := [];
      while left > 0
        invariant left >= 0 && |buffer| + left == length && old(incoming) == buffer + incoming
        invariant failed == old(failed)
        invariant a.Valid() && a.m_position == a.m_size && fresh(a.Repr - old(a.Repr))
        invariant a.Contents() == old(a.Contents()) + buffer && a.m_position == old(a.m_position) + |buffer|
        invariant old(a.m_position) + length <= old(a.m_capacity) ==> a.m_capacity == old(a.m_capacity)
      {
        var len, b := Recv(left);
        if len <= 0 {
          return len, buffer;
        }
        Append(a, b);
        buffer := buffer + b;
        left := left - len;
      }
      result := length;
    }

    /** write_fix_size(byte_array, length) from the start of an array: each transfer sends some of the unread
        bytes, and the position moves behind them. */
    method WriteFixSize(a: ByteArray) returns (result: int)
      requires a.Valid() && a.m_position == 0 && this !in a.Repr
      modifies this`outgoing, this`failed, a`m_position, a`m_size, a`m_cur
      ensures old(outgoing) <= outgoing <= old(outgoing) + old(a.Contents())
      ensures result > 0 || old(a.Contents()) == [] ==> outgoing == old(outgoing) + old(a.Contents())
      ensures result <= 0 && old(a.Contents()) != [] ==> failed
      ensures !failed ==> outgoing == old(outgoing) + old(a.Contents())
      ensures Honest()
    {
      ghost var c := a.Contents();
      var length := a.m_size;
      var left := length;
      while left > 0
        invariant 0 <= left <= length == |c| && a.Valid() && a.Contents() == c
        invariant a.m_position == length - left
        invariant outgoing == old(outgoing) + c[..length - left] && Honest()
      {
        var unread := a.ToString();
        var len := Send(unread);
        if len <= 0 {
          return len;
        }
        var ok := a.SetPosition(a.m_position + len);
        assert c[..length - left] + unread[..len] == c[..length - left + len];
        left := left - len;
      }
      result := length;
    }
  }

  /** write() at the end of an array */
  method Append(a: ByteArray, b: seq<Byte>)
    requires a.Valid() && a.m_position == a.m_size
    modifies a.Repr
    ensures a.Valid() && a.m_position == a.m_size && fresh(a.Repr - old(a.Repr))
    ensures a.Contents() == old(a.Contents()) + b && a.m_position == old(a.m_position) + |b|
    ensures a.m_position <= old(a.m_capacity) ==> a.m_capacity == old(a.m_capacity)
  {
    a.Write(b);
  }

  /** write_fix_uint32 at the end of an array */
  method AppendWord(a: ByteArray, v: nat, host: Endian)
    requires a.Valid() && a.m_position == a.m_size
    modifies a.Repr
    ensures a.Valid() && a.m_position == a.m_size && fresh(a.Repr - old(a.Repr))
    ensures a.Contents() == old(a.Contents()) + Word(v)
  {
    FixBytesIgnoreHost(v, 4, host, Big);
    Append(a, FixBytes(v, 4, host, Big));
  }

  /** Protocol: encode() into a new array, the position at its start. */
  method Encode(m: Message, host: Endian) returns (a: ByteArray)
    ensures fresh(a.Repr) && a in a.Repr && a.Valid() && a.m_position == 0 && a.Contents() == Frame(m)
  {
    a := new ByteArray(4096, false);
    WriteFrame(a, m, host);
    var ok := a.SetPosition(0);
  }

  method WriteFrame(a: ByteArray, m: Message, host: Endian)
    requires a.Valid() && a.m_position == a.m_size == 0
    modifies a.Repr
    ensures a.Valid() && a.m_position == a.m_size && fresh(a.Repr - old(a.Repr))
    ensures a.Contents() == Frame(m)
  {
    WriteTypes(a, m);
    WriteWords(a, m, host);
    Append(a, m.content);
  }

  method WriteTypes(a: ByteArray, m: Message)
    requires a.Valid() && a.m_position == a.m_size
    modifies a.Repr
    ensures a.Valid() && a.m_position == a.m_size && fresh(a.Repr - old(a.Repr))
    ensures a.Contents() == old(a.Contents()) + [m.magic, m.version, m.kind]
  {
    Append(a, [m.magic]);
    Append(a, [m.version]);
    Append(a, [m.kind]);
  }

  method WriteWords(a: ByteArray, m: Message, host: Endian)
    requires a.Valid() && a.m_position == a.m_size
    modifies a.Repr
    ensures a.Valid() && a.m_position == a.m_size && fresh(a.Repr - old(a.Repr))
    ensures a.Contents() == old(a.Contents()) + Word(m.id) + Word(|m.content| % WORD)
  {
    AppendWord(a, m.id, host);
    AppendWord(a, |m.content| % WORD, host);
  }

  /** read_fix_uint8 and read_fix_uint32 where the bytes are there */
  method TakeWord(a: ByteArray, n: nat, host: Endian) returns (v: nat)
    requires a.Valid() && a.Sound() && 0 < n <= a.m_size - a.m_position
    modifies a`m_position, a`m_cur
    ensures a.Valid() && a.Contents() == old(a.Contents()) && a.m_position == old(a.m_position) + n
    ensures v == FromMemory(a.Contents()[old(a.m_position)..a.m_position], Big)
  {
    var r := a.Read(n);
    ReadFixIgnoresHost(r.bytes, host, Big);
    v := ReadFix(r.bytes, host, Big);
  }

  /** decode_meta() */
  method DecodeMeta(a: ByteArray, host: Endian) returns (m: Message, length: nat)
    requires a.Valid() && a.Sound() && a.m_position == 0 && a.m_size == BASE_LENGTH
    modifies a`m_position, a`m_cur
    ensures var s := old(a.Contents());
      m == Message(s[0], s[1], s[2], OfWord(s[3..7]), []) && length == OfWord(s[7..11])
  {
    ghost var s := a.Contents();
    var magic := TakeWord(a, 1, host);
    var version := TakeWord(a, 1, host);
    var kind := TakeWord(a, 1, host);
    OneByte(s[0..1]);
    OneByte(s[1..2]);
    OneByte(s[2..3]);
    var id := TakeWord(a, 4, host);
    length := TakeWord(a, 4, host);
    m := Message(magic, version, kind, id, []);
  }

  lemma OneByte(s: seq<Byte>)
    requires |s| == 1
    ensures FromMemory(s, Big) == s[0]
  {
    assert Reverse(s[1..]) == [];
    assert Reverse(s) == s;
    assert FromLowFirst(s[1..]) == 0;
  }

  /** The first half of recv_protocol(): the header. */
  method RecvMeta(stream: Stream, host: Endian) returns (ok: bool, m: Message, length: nat)
    modifies stream`incoming, stream`failed
    ensures var s := old(stream.incoming);
      ok ==>
        && |s| >= BASE_LENGTH && stream.incoming == s[BASE_LENGTH..] && stream.failed == old(stream.failed)
        && m == Message(s[0], s[1], s[2], OfWord(s[3..7]), []) && length == OfWord(s[7..11])
    ensures !ok && !stream.failed ==> |old(stream.incoming)| < BASE_LENGTH && stream.incoming == []
    ensures |stream.incoming| <= |old(stream.incoming)| && stream.Honest()
  {
    ghost var s := stream.incoming;
    var a := new ByteArray(4096, false);
    var result, head := stream.ReadFixSizeInto(a, BASE_LENGTH);
    if result <= 0 {
      return false, Message(0, 0, 0, 0, []), 0;
    }
    var moved := a.SetPosition(0);
    assert a.Contents() == head && s == head + stream.incoming;
    m, length := DecodeMeta(a, host);
    SameHead(head, stream.incoming);
    ok := true;
  }

  lemma SameHead(head: seq<Byte>, rest: seq<Byte>)
    requires |head| == BASE_LENGTH
    ensures var s := head + rest;
      && s[BASE_LENGTH..] == rest && s[0] == head[0] && s[1] == head[1] && s[2] == head[2]
      && s[3..7] == head[3..7] && s[7..11] == head[7..11]
  {
  }

  /**
    recv_protocol(): whatever the sizes of the single transfers, a message comes exactly as the frame says and
    the rest stays in the stream; the null pointer comes if the stream failed, or if there is no message to
    receive from what it delivered.
   */
  method RecvProtocol(stream: Stream, host: Endian) returns (m: Option<Message>)
    modifies stream`incoming, stream`failed
    ensures m.Some? ==> Receive(old(stream.incoming)) == Received(m.value, stream.incoming)
    ensures m.Some? ==> stream.failed == old(stream.failed)
    ensures m.None? ==> stream.failed || Receive(old(stream.incoming)) == Nothing(stream.incoming)
    ensures |stream.incoming| <= |old(stream.incoming)| && stream.Honest()
    ensures m.Some? ==> |stream.incoming| < |old(stream.incoming)|
  {
    ghost var s := stream.incoming;
    var ok, message, length := RecvMeta(stream, host);
    if !ok {
      return None;
    }
    ghost var rest := stream.incoming;
    if message.magic != MAGIC {
      return None;
    }
    if length == 0 {
      return Some(message);
    }
    var buffer;
    var result;
    result, buffer := stream.ReadFixSize(length);
    if result <= 0 {
      return None;
    }
    assert rest[..length] == buffer && rest[length..] == stream.incoming;
    m := Some(message.(content := buffer));
  }

  /** send_protocol(), under the session's lock */
  method SendProtocol(stream: Stream, m: Message, host: Endian) returns (result: int)
    modifies stream`outgoing, stream`failed
    ensures old(stream.outgoing) <= stream.outgoing <= old(stream.outgoing) + Frame(m)
    ensures !stream.failed ==> stream.outgoing == old(stream.outgoing) + Frame(m)
    ensures result > 0 ==> stream.outgoing == old(stream.outgoing) + Frame(m)
    ensures stream.Honest()
  {
    var a := Encode(m, host);
    result := stream.WriteFixSize(a);
  }

  /** Receptions until there is none. */
  method RecvAll(stream: Stream, host: Endian) returns (ms: seq<Message>)
    modifies stream`incoming, stream`failed
    ensures !stream.failed ==> (ms, stream.incoming) == ReceiveAll(old(stream.incoming))
    ensures stream.Honest()
  {
    ms := [];
    ghost var s := stream.incoming;
    assert [] + ReceiveAll(s).0 == ReceiveAll(s).0;
    while true
      invariant stream.Honest()
      invariant !stream.failed ==>
        ReceiveAll(s) == (ms + ReceiveAll(stream.incoming).0, ReceiveAll(stream.incoming).1)
      decreases |stream.incoming|
    {
      ghost var t := stream.incoming;
      var m := RecvProtocol(stream, host);
      if m.None? {
        if !stream.failed {
          assert ReceiveAll(t) == ([], stream.incoming);
          assert ms + [] == ms;
        }
        return ms;
      }
      var u := ms + [m.value];
      assert u + ReceiveAll(stream.incoming).0 == ms + ([m.value] + ReceiveAll(stream.incoming).0);
      ms := u;
    }
  }

  /**
    A whole conversation in one direction: messages sent one after the other over any partial transfers, and
    received over any other ones, arrive as the list that was sent, with nothing left over, if the connection
    does not fail.
   */
  method Deliver(ms: seq<Message>, sender: Endian, receiver: Endian) returns (arrived: seq<Message>, left: seq<Byte>)
    requires forall i :: 0 <= i < |ms| ==> Default(ms[i]) && |ms[i].content| < WORD
    ensures arrived == ms && left == []
  {
    var wire := new Stream([], true);
    var i := 0;
    assert ms[..0] == [];
    while i < |ms|
      invariant 0 <= i <= |ms|
      invariant !wire.failed && wire.reliable && wire.outgoing == Frames(ms[..i])
    {
      var result := SendProtocol(wire, ms[i], sender);
      FramesSnoc(ms[..i], ms[i]);
      assert ms[..i + 1] == ms[..i] + [ms[i]];
      i := i + 1;
    }
    assert ms[..i] == ms;
    var end := new Stream(wire.outgoing, true);
    arrived := RecvAll(end, receiver);
    FramesRoundTrip(ms);
    left := end.incoming;
  }

  lemma {:induction false} FramesSnoc(ms: seq<Message>, m: Message)
    ensures Frames(ms + [m]) == Frames(ms) + Frame(m)
  {
    if ms == [] {
      assert [m][1..] == [];
    } else {
      assert (ms + [m])[1..] == ms[1..] + [m];
      FramesSnoc(ms[1..], m);
    }
  }

  /** As written no header can be received: an array's vectors for anything within one block are none, so that
      the transfer is asked for nothing. */
  method HeaderHasNoVectors() returns (buffers: seq<IoVec>)
    ensures buffers == []
  {
    var a := new ByteArray(4096, false);
    var total;
    total, buffers := a.GetWriteBuffers(BASE_LENGTH);
    assert BlockReads.Segments(4096, 0, 0, BASE_LENGTH, false) == [];
  }
}
