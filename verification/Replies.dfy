/** Reading an answer (acid/rpc/rpc.h:138-145, acid/rpc/rpc_client.h:270-286) and the reply to a discovery
    (acid/rpc/rpc_connection_pool.cpp:223-244) through the real objects. */
module Replies {
  import opened Chunks
  import opened Options
  import opened BitOps
  import opened Varints
  import opened Serializers
  import opened RoundTrips
  import opened ByteArrays
  import opened RpcRequests
  import opened Registries
  import opened Discovery
  import SO = SerializerObjects

  /** The code and the message have their types. */
  lemma HeadShape(s: seq<Byte>, full: bool)
    ensures var r := DecodeMembers(HEAD, s, full);
      r.Parsed? ==> |r.value| == 2 && r.value[0].Num? && r.value[0].n >= 0 && r.value[1].Text?
  {
    var code := Decode(Type.Unsigned(W16), s, full);
    if code.Parsed? {
      ShapeBehind(code.rest, full);
    }
  }

  lemma ShapeBehind(s: seq<Byte>, full: bool)
    ensures var r := DecodeMembers(Cons(Str, Nil), s, full); r.Parsed? ==> |r.value| == 1 && r.value[0].Text?
  {
    var r := DecodeMembers(Cons(Str, Nil), s, full);
    if r.Parsed? {
      var text := Decode(Str, s, full);
      assert DecodeMembers(Nil, text.rest, full) == Parsed([], text.rest);
    }
  }

  /** operator>> of a result: the value is read after a success only. */
  method ReadOutcome(s: SO.Serializer, t: Type) returns (r: SO.Outcome<Outcome>)
    requires s.Valid() && s.m_byte_array.Sound()
    modifies s.m_byte_array`m_position, s.m_byte_array`m_cur
    ensures s.Valid() && SO.SameArray(s.m_byte_array)
    ensures SO.Follows(r, DecodeOutcome(t, old(SO.Unread(s.m_byte_array)), SO.Full(s.m_byte_array)),
                       SO.Unread(s.m_byte_array))
  {
    HeadShape(SO.Unread(s.m_byte_array), SO.Full(s.m_byte_array));
    var head := s.ReadMembers(HEAD);
    if !head.Done? {
      return head.Lost();
    }
    var code, message := head.value[0].n, head.value[1].s;
    if code != 0 {
      return SO.Done(Outcome(code, message, Blank(t)));
    }
    var v := s.Read(t);
    if !v.Done? {
      return v.Lost();
    }
    r := SO.Done(Outcome(0, message, v.value));
  }

  const NO_MATCH: nat := 2

  /** What call() makes of the content of a response; None is undefined behaviour. */
  ghost predicate Answers(content: seq<Byte>, t: Type, r: Option<Outcome>) {
    if content == [] then r.Some? && r.value.code == NO_METHOD
    else match DecodeOutcome(t, content, FillsBlocks(|content|))
      case Parsed(o, _) => r == Some(o)
      case Underflow => r.Some? && r.value.code == NO_MATCH
      case Crash => r == None
  }

  /** The end of call(): an empty content is an unknown method, one that is too short a wrong type. */
  method ReadAnswer(content: seq<Byte>, t: Type, host: Endian, repaired: bool) returns (r: Option<Outcome>)
    requires Readable(content, repaired)
    ensures Answers(content, t, r)
  {
    if content == [] {
      return Some(Outcome(NO_METHOD, [], Blank(t)));
    }
    var s := FromString(content, host, repaired);
    var o := ReadOutcome(s, t);
    r := match o
      case Done(o) => Some(o)
      case Failed => Some(Outcome(NO_MATCH, [], Blank(t)))
      case Broken => None;
  }

  /** A successful answer arrives whole, but for the one that ends in an empty string and fills whole blocks: with
      the repaired read any, and as written any of one block. */
  method AnswerArrives(t: Type, o: Outcome, host: Endian, repaired: bool) returns (r: Option<Outcome>)
    requires Plain(t) && TypedOutcome(t, o) && o.code == 0 && Encode(t, o.value) != []
    requires Readable(EncodeOutcome(t, o), repaired)
    ensures r == if FillsBlocks(|EncodeOutcome(t, o)|) && EndsEmpty(t, o.value) then None else Some(o)
  {
    var content := EncodeOutcome(t, o);
    AnswerRead(t, o, FillsBlocks(|content|));
    r := ReadAnswer(content, t, host, repaired);
  }

  // ---- discovery ----

  /** Results read before, in front of those that a parse gives. */
  ghost function Ahead(done: seq<Outcome>, p: Parse<seq<Outcome>>): Parse<seq<Outcome>> {
    match p
    case Parsed(os, rest) => Parsed(done + os, rest)
    case Underflow => Underflow
    case Crash => Crash
  }

  /** `i` of `n` results have been read of what comes to `all`, and the others are in `rest`. */
  ghost predicate ReadSoFar(all: Parse<seq<Outcome>>, done: seq<Outcome>, i: nat, n: nat, rest: seq<Byte>, full: bool) {
    i <= n && all == Ahead(done, DecodeAll(n - i, rest, full))
  }

  lemma OneMore(all: Parse<seq<Outcome>>, done: seq<Outcome>, i: nat, n: nat, rest: seq<Byte>, full: bool,
                tmp: SO.Outcome<Outcome>, rest': seq<Byte>)
    requires i < n && ReadSoFar(all, done, i, n, rest, full)
    requires SO.Follows(tmp, DecodeOutcome(Str, rest, full), rest')
    ensures tmp.Done? ==> ReadSoFar(all, done + [tmp.value], i + 1, n, rest', full)
    ensures !tmp.Done? ==> SO.Follows(tmp.Lost(), all, rest')
  {
    var r := Reader(Str, full)(rest);
    if r.Parsed? {
      var p := ReadAll(Reader(Str, full), n - i - 1, r.rest);
      if p.Parsed? {
        assert (done + [r.value]) + p.value == done + ([r.value] + p.value);
      }
    }
  }

  lemma NoMore(all: Parse<seq<Outcome>>, done: seq<Outcome>, n: nat, rest: seq<Byte>, full: bool)
    requires ReadSoFar(all, done, n, n, rest, full)
    ensures all == Parsed(done, rest)
  {
    assert done + [] == done;
  }

  /** One turn of the loop over the results. */
  method ReadNext(s: SO.Serializer, ghost all: Parse<seq<Outcome>>, ghost res: seq<Outcome>, ghost i: nat,
                  ghost n: nat)
    returns (tmp: SO.Outcome<Outcome>)
    requires s.Valid() && s.m_byte_array.Sound()
    requires i < n && ReadSoFar(all, res, i, n, SO.Unread(s.m_byte_array), SO.Full(s.m_byte_array))
    modifies s.m_byte_array`m_position, s.m_byte_array`m_cur
    ensures s.Valid() && SO.SameArray(s.m_byte_array)
    ensures tmp.Done? ==>
      ReadSoFar(all, res + [tmp.value], i + 1, n, SO.Unread(s.m_byte_array), SO.Full(s.m_byte_array))
    ensures !tmp.Done? ==> SO.Follows(tmp.Lost(), all, SO.Unread(s.m_byte_array))
  {
    ghost var rest, full := SO.Unread(s.m_byte_array), SO.Full(s.m_byte_array);
    tmp := ReadOutcome(s, Str);
    OneMore(all, res, i, n, rest, full, tmp, SO.Unread(s.m_byte_array));
  }

  /** The loop over the results. */
  method ReadResults(s: SO.Serializer, n: nat, ghost all: Parse<seq<Outcome>>) returns (r: SO.Outcome<seq<Outcome>>)
    requires s.Valid() && s.m_byte_array.Sound()
    requires ReadSoFar(all, [], 0, n, SO.Unread(s.m_byte_array), SO.Full(s.m_byte_array))
    modifies s.m_byte_array`m_position, s.m_byte_array`m_cur
    ensures s.Valid() && SO.SameArray(s.m_byte_array)
    ensures SO.Follows(r, all, SO.Unread(s.m_byte_array))
  {
    var res, i: nat := [], 0;
    while i < n
      invariant s.Valid() && SO.SameArray(s.m_byte_array)
      invariant ReadSoFar(all, res, i, n, SO.Unread(s.m_byte_array), SO.Full(s.m_byte_array))
      decreases n - i
    {
      var tmp := ReadNext(s, all, res, i, n);
      if !tmp.Done? {
        return tmp.Lost();
      }
      res := res + [tmp.value];
      i := i + 1;
    }
    NoMore(all, res, n, SO.Unread(s.m_byte_array), SO.Full(s.m_byte_array));
    r := SO.Done(res);
  }

  lemma Nothing(p: Parse<seq<Outcome>>)
    ensures Ahead([], p) == p
  {
    if p.Parsed? {
      assert [] + p.value == p.value;
    }
  }

  /** discover(), once the reply is there. */
  method ReadReply(content: seq<Byte>, host: Endian, repaired: bool) returns (d: Discovered)
    requires Readable(content, repaired)
    ensures d == Discover(content, FillsBlocks(|content|))
  {
    var s := FromString(content, host, repaired);
    var head := s.ReadMembers(Cons(Str, Cons(COUNTER, Nil)));
    match head {
      case Failed => return Failed;
      case Broken => return Broken;
      case Done(vs) =>
        if |vs| != 2 || !vs[1].Num? || vs[1].n < 0 {
          return Failed;
        }
        ghost var all := DecodeAll(vs[1].n, SO.Unread(s.m_byte_array), SO.Full(s.m_byte_array));
        Nothing(all);
        var os := ReadResults(s, vs[1].n, all);
        d := match os
          case Failed => Discovered.Failed
          case Broken => Discovered.Broken
          case Done(os) => Judged(os);
    }
  }

  /** The pool gets exactly the addresses found as long as their number fits the counter, and only then: with the
      repaired read from any reply, and as written from any of one block. */
  method ReplyArrives(name: Name, found: seq<Name>, host: Endian, repaired: bool) returns (d: Discovered)
    requires Strings(name, found) && Readable(Reply(name, found), repaired)
    ensures d == Addresses(found) <==> |found| < U32
  {
    var content := Reply(name, found);
    DiscoveryIff(name, found, FillsBlocks(|content|));
    d := ReadReply(content, host, repaired);
  }
}
