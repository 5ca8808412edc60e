/** The way of a call's content from client to server through the real objects: acid/rpc/rpc_client.h:63-86,
    acid/rpc/serializer.h:56-88, acid/rpc/rpc_server.cpp:219-224 and acid/rpc/rpc_server.h:145-157. */
module RpcRequests {
  import opened Chunks
  import opened BitOps
  import opened Varints
  import opened Serializers
  import opened RoundTrips
  import opened ByteArrays
  import opened Options
  import Framing
  import SO = SerializerObjects

  const BASE_SIZE: nat := 4096

  /** A string can be read from its own array: any once read() is repaired, and as written one of a single block. */
  predicate Readable(content: seq<Byte>, repaired: bool) {
    repaired || |content| <= BASE_SIZE
  }

  /** Serializer(const std::string&): the bytes in a new array, the position at the start. */
  method FromString(content: seq<Byte>, host: Endian, repaired: bool) returns (s: SO.Serializer)
    ensures fresh(s) && fresh(s.m_byte_array.Repr) && s.Valid() && s.host == host
    ensures SO.Unread(s.m_byte_array) == content && s.m_byte_array.m_position == 0
    ensures SO.Full(s.m_byte_array) <==> FillsBlocks(|content|)
    ensures Readable(content, repaired) ==> s.m_byte_array.Sound()
    ensures s.m_byte_array.m_base_size == BASE_SIZE
    ensures |content| > BASE_SIZE ==> s.m_byte_array.m_capacity < |content| + BASE_SIZE
  {
    var a := Filled(content, repaired);
    var ok := a.SetPosition(0);
    s := new SO.Serializer(a, host);
  }

  method Filled(content: seq<Byte>, repaired: bool) returns (a: ByteArray)
    ensures fresh(a.Repr) && a.Valid() && a.Contents() == content
    ensures a.repaired == repaired && a.m_base_size == BASE_SIZE
    ensures a.m_size == a.m_capacity <==> FillsBlocks(|content|)
    ensures a.m_capacity == BASE_SIZE || BASE_SIZE < a.m_capacity < |content| + BASE_SIZE
    ensures |content| <= BASE_SIZE ==> a.m_capacity == BASE_SIZE
  {
    a := new ByteArray(BASE_SIZE, repaired);
    a.Write(content);
    OverwriteEmpty(content);
    a.CursorInNumbers();
    BlocksFilled(|content|, a.m_capacity, |a.nodes|);
  }

  lemma BlocksFilled(n: nat, capacity: nat, blocks: nat)
    requires capacity == blocks * BASE_SIZE && n <= capacity
    requires capacity == BASE_SIZE || BASE_SIZE < capacity < n + BASE_SIZE
    ensures n == capacity <==> FillsBlocks(n)
  {
  }

  /** call(name, params...): the content of the request. */
  method BuildRequest(name: seq<Byte>, ts: Types, args: seq<Value>, host: Endian) returns (content: seq<Byte>)
    requires |name| < Pow2(64) && TypedMembers(ts, args)
    ensures content == Request(name, ts, args)
  {
    var a := new ByteArray(BASE_SIZE, false);
    var s := new SO.Serializer(a, host);
    WriteCall(s, name, ts, args);
    OverwriteEmpty(Request(name, ts, args));
    content := FromStart(a);
  }

  lemma OverwriteEmpty(b: seq<Byte>)
    ensures Overwrite([], 0, b) == b
  {
  }

  /** s.reset() and s.to_string() */
  method FromStart(a: ByteArray) returns (content: seq<Byte>)
    requires a.Valid()
    modifies a`m_position, a`m_size, a`m_cur
    ensures content == old(a.Contents())
  {
    var ok := a.SetPosition(0);
    content := a.ToString();
  }

  /** s << name << args */
  method WriteCall(s: SO.Serializer, name: seq<Byte>, ts: Types, args: seq<Value>)
    requires |name| < Pow2(64) && TypedMembers(ts, args)
    requires s.Valid()
    modifies s.m_byte_array.Repr
    ensures s.Valid() && SO.Wrote(s.m_byte_array, Request(name, ts, args))
  {
    ghost var head, tail := EncodeScalar(Str, Text(name)), EncodeMembers(ts, args);
    SO.OverwriteTwice(s.m_byte_array.Contents(), s.m_byte_array.m_position, head, tail);
    s.WriteScalar(Str, Text(name));
    s.WriteMembers(ts, args);
  }

  /** handle_method_call: the name of the method, and the bytes behind it as a string of their own. */
  method SplitRequest(content: seq<Byte>, host: Endian, repaired: bool)
    returns (name: SO.Outcome<Value>, rest: seq<Byte>)
    requires Readable(content, repaired)
    ensures SO.Follows(name, DecodeScalar(Str, content, FillsBlocks(|content|)), rest)
  {
    var s := FromString(content, host, repaired);
    name := s.ReadScalar(Str);
    rest := s.m_byte_array.ToString();
  }

  /** The proxy of a registered function reads its arguments. */
  method ReadArguments(arg: seq<Byte>, ts: Types, host: Endian, repaired: bool) returns (args: SO.Outcome<seq<Value>>)
    requires Readable(arg, repaired)
    ensures match DecodeMembers(ts, arg, FillsBlocks(|arg|))
      case Parsed(vs, _) => args == SO.Done(vs)
      case Underflow => args == SO.Failed
      case Crash => args == SO.Broken
  {
    var s := FromString(arg, host, repaired);
    args := s.ReadMembers(ts);
  }

  /**
    From the client's call to the server's: the server finds the method's name and the very arguments,
    whatever the byte orders of the two machines. With the repaired read this holds of every call, and as written of
    every one whose content fits a block; there what can go wrong is undefined behaviour, when the encoded arguments
    fill whole blocks and end in an empty string. As written, `LongArgumentsLost` is a longer call that fails.
   */
  method CallArrives(name: seq<Byte>, ts: Types, args: seq<Value>, client: Endian, server: Endian, repaired: bool)
    returns (name': SO.Outcome<Value>, args': SO.Outcome<seq<Value>>)
    requires |name| < Pow2(64) && PlainMembers(ts) && TypedMembers(ts, args)
    requires Readable(Request(name, ts, args), repaired)
    ensures name' == SO.Done(Text(name))
    ensures args' == if FillsBlocks(|EncodeMembers(ts, args)|) && MembersEndEmpty(ts, args) then SO.Broken
                     else SO.Done(args)
  {
    var content := BuildRequest(name, ts, args, client);
    var rest;
    ServerSeesTheCall(name, ts, args);
    name', rest := SplitRequest(content, server, repaired);
    assert rest == EncodeMembers(ts, args);
    args' := ReadArguments(rest, ts, server, repaired);
  }

  /** A read as written where AsWrittenReadIff says that it is right. */
  method FittingRead(a: ByteArray, n: nat) returns (r: ReadResult)
    requires a.Valid() && a.m_capacity < U64 && a.m_position + n <= a.m_size && a.m_position < a.m_capacity
    requires BlockReads.WrittenReadFits(a.m_base_size, a.m_position, n)
    modifies a`m_position, a`m_cur
    ensures a.Valid() && a.Contents() == old(a.Contents()) && a.m_position == old(a.m_position) + n
    ensures r == Got(a.Contents()[old(a.m_position)..a.m_position])
  {
    SliceOfPrefix(Flat(a.blocks), a.m_size, a.m_position, n);
    r := a.ReadAsWritten(n);
  }

  /**
    Arguments that do not fit one block, with read() as written: a string of 4094 bytes and a byte behind it. The
    server's reads give the string; the byte is at position 4096, and reading it follows the null pointer.
   */
  method LongArgumentsLost(s: seq<Byte>, x: Byte, host: Endian) returns (text: ReadResult, last: ReadResult)
    requires |s| == BASE_SIZE - 2
    ensures text == Got(s) && last == Undefined
  {
    LongArguments(s, x);
    text, last := ReadsOf(VarBytes(|s|), s, InMemory(x, 1, Big), host);
  }

  /** The reads for a head of two bytes, a string and a byte. */
  method ReadsOf(head: seq<Byte>, s: seq<Byte>, tail: seq<Byte>, host: Endian)
    returns (text: ReadResult, last: ReadResult)
    requires |head| == 2 && |s| == BASE_SIZE - 2 && |tail| == 1
    ensures text == Got(s) && last == Undefined
  {
    var serializer := FromString(head + s + tail, host, false);
    var a := serializer.m_byte_array;
    TwoBlocks(a);
    var first := FittingRead(a, 1);
    var second := FittingRead(a, 1);
    text := FittingRead(a, |s|);
    assert (head + s + tail)[2..BASE_SIZE] == s;
    BlockReads.SecondBlockFaults(a.blocks, a.m_base_size, 1);
    last := a.ReadAsWritten(1);
  }

  lemma TwoBlocks(a: ByteArray)
    requires a.Valid() && a.m_base_size == BASE_SIZE && BASE_SIZE < a.m_size
    requires a.m_capacity < a.m_size + BASE_SIZE && a.m_size < 2 * BASE_SIZE
    ensures |a.blocks| == 2 && a.m_capacity == 2 * BASE_SIZE
  {
    a.CursorInNumbers();
  }

  /** What operator<< writes for those arguments. */
  lemma LongArguments(s: seq<Byte>, x: Byte)
    requires |s| == BASE_SIZE - 2
    ensures var ts, args := Cons(Str, Cons(Type.Unsigned(W8), Nil)), [Text(s), Num(x)];
      && TypedMembers(ts, args)
      && EncodeMembers(ts, args) == VarBytes(|s|) + s + InMemory(x, 1, Big)
    ensures |VarBytes(|s|)| == 2 && |InMemory(x, 1, Big)| == 1
  {
    var args := [Text(s), Num(x)];
    assert args[1..] == [Num(x)] && args[1..][1..] == [];
    PowersAgree();
    SevenBits(64);
  }

  const METHOD_RESPONSE: Byte := 6

  /**
    handle_method_call: the function registered under the name gets the bytes behind it, and its answer goes
    back under the sequence id of the request; under an unknown name the answer is empty. A content without a
    readable name ends in an exception or in undefined behaviour, and there is no response.
   */
  method HandleMethodCall(request: Framing.Message, handlers: map<seq<Byte>, seq<Byte> -> seq<Byte>>, host: Endian,
                          repaired: bool)
    returns (response: Option<Framing.Message>)
    requires Readable(request.content, repaired)
    ensures match DecodeScalar(Str, request.content, FillsBlocks(|request.content|))
      case Parsed(name, arg) =>
        && response.Some? && response.value.id == request.id && response.value.kind == METHOD_RESPONSE
        && response.value.content == (if name.s in handlers then handlers[name.s](arg) else [])
      case _ => response == None
  {
    var name, arg := SplitRequest(request.content, host, repaired);
    if !name.Done? {
      return None;
    }
    var ret := [];
    if name.value.s in handlers {
      ret := handlers[name.value.s](arg);
    }
    response := Some(Framing.Message(Framing.MAGIC, Framing.VERSION, METHOD_RESPONSE, request.id, ret));
  }
}
