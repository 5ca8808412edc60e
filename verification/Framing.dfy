/** The frames of acid/rpc/protocol.cpp:22-59 and their reception, acid/rpc/rpc_session.cpp:8-41, on values;
    and the transfer loops of acid/common/stream.cpp:5-57 on the results of single transfers. */
module Framing {
  import opened Chunks
  import opened Varints

  const MAGIC: Byte := 0xcc
  const VERSION: Byte := 0x01
  const BASE_LENGTH: nat := 11
  const WORD: nat := 0x1_0000_0000

  datatype Message = Message(magic: Byte, version: Byte, kind: Byte, id: nat, content: seq<Byte>)

  /** The fields fit their widths, and the magic number and the version are the default ones. */
  predicate Default(m: Message) {
    m.magic == MAGIC && m.version == VERSION && m.id < WORD
  }

  /** A 32-bit integer, high byte first. */
  function Word(v: nat): (b: seq<Byte>)
    ensures |b| == 4
  {
    InMemory(v, 4, Big)
  }

  function OfWord(b: seq<Byte>): (v: nat) {
    FromMemory(b, Big)
  }

  /** encode(): eleven bytes of header and the content. The length field keeps 32 bits of the length. */
  function Frame(m: Message): (b: seq<Byte>)
    ensures |b| == BASE_LENGTH + |m.content|
  {
    [m.magic, m.version, m.kind] + Word(m.id) + Word(|m.content| % WORD) + m.content
  }

  /** What a reception comes to: a message, or the null pointer; and the bytes left in the stream. */
  datatype Reception = Received(message: Message, rest: seq<Byte>) | Nothing(rest: seq<Byte>)

  /** recv_protocol() on a stream that delivers `s` and then ends. */
  function Receive(s: seq<Byte>): (r: Reception) {
    if |s| < BASE_LENGTH then Nothing([])
    else
      var m := Message(s[0], s[1], s[2], OfWord(s[3..7]), []);
      var length, rest := OfWord(s[7..11]), s[BASE_LENGTH..];
      if m.magic != MAGIC then Nothing(rest)
      else if length == 0 then Received(m, rest)
      else if |rest| < length then Nothing([])
      else Received(m.(content := rest[..length]), rest[length..])
  }

  lemma Words(v: nat)
    ensures OfWord(Word(v)) == v % WORD
  {
    PowersOf32();
    LowFirstCuts(v, 4);
    ReverseTwice(LowFirst(v, 4));
  }

  lemma PowersOf32()
    ensures Pow256(4) == WORD
  {
    assert Pow256(4) == 256 * Pow256(3) == 256 * 256 * Pow256(2);
    assert Pow256(2) == 256 * Pow256(1);
  }

  lemma {:induction false} LowFirstCuts(v: nat, n: nat)
    ensures FromLowFirst(LowFirst(v, n)) == v % Pow256(n)
  {
    if n > 0 {
      LowFirstCuts(v / 256, n - 1);
      CutStep(v, v / 256, v % 256, Pow256(n - 1), 256 * Pow256(n - 1));
    }
  }

  lemma CutStep(v: nat, q: nat, d: nat, p: nat, p': nat)
    requires v == 256 * q + d && d < 256 && p > 0 && p' == 256 * p
    ensures v % p' == d + 256 * (q % p)
  {
    var a, b := q / p, q % p;
    assert q == a * p + b && b < p by { DivMod(q, p); }
    Recompose(a, b, p, d);
    CutOff(v, a, p', 256 * b + d);
  }

  lemma CutOff(v: nat, a: nat, p: nat, r: nat)
    requires r < p && v == a * p + r
    ensures v % p == r
  {
    DivUnique(v, p, a, r);
  }

  lemma Recompose(a: nat, b: nat, p: nat, d: nat)
    requires b < p && d < 256
    ensures 256 * (a * p + b) + d == a * (256 * p) + (256 * b + d)
    ensures 256 * b + d < 256 * p
  {
  }

  /** The parts of a frame, found again whatever follows. */
  lemma FrameParts(m: Message, rest: seq<Byte>)
    ensures var s := Frame(m) + rest;
      && s[0] == m.magic && s[1] == m.version && s[2] == m.kind
      && s[3..7] == Word(m.id) && s[7..11] == Word(|m.content| % WORD)
      && s[BASE_LENGTH..] == m.content + rest
  {
  }

  /** The frame byte by byte: three bytes as they are, then the id and the length of the content with the high byte
      first, then the content. */
  lemma FrameBytes(m: Message, k: nat)
    ensures var s := Frame(m);
      && s[0] == m.magic && s[1] == m.version && s[2] == m.kind
      && (k < 4 ==> s[3 + k] == (m.id / Pow256(3 - k)) % 256)
      && (k < 4 ==> s[7 + k] == ((|m.content| % WORD) / Pow256(3 - k)) % 256)
      && s[BASE_LENGTH..] == m.content
  {
    FrameParts(m, []);
    assert Frame(m) + [] == Frame(m);
    assert m.content + [] == m.content;
    if k < 4 {
      ByteOrder(m.id, 4, k);
      ByteOrder(|m.content| % WORD, 4, k);
      assert Frame(m)[3..7][k] == Frame(m)[3 + k] && Frame(m)[7..11][k] == Frame(m)[7 + k];
    }
  }

  /** A frame is received as the message it was made of, with whatever follows left in the stream, exactly if
      its magic number is the protocol's, its id fits 32 bits and its content is shorter than 2^32 bytes. */
  lemma FrameRoundTripIff(m: Message, rest: seq<Byte>)
    ensures Receive(Frame(m) + rest) == Received(m, rest)
       <==> m.magic == MAGIC && m.id < WORD && |m.content| < WORD
  {
    var n := |m.content|;
    FrameReceived(m, rest);
    var tail := m.content + rest;
    if n < WORD {
      assert tail[..n] == m.content && tail[n..] == rest;
    }
  }

  /** What is received at the beginning of a frame, whatever its fields are. */
  lemma FrameReceived(m: Message, rest: seq<Byte>)
    ensures var length, tail := |m.content| % WORD, m.content + rest;
      var head := Message(m.magic, m.version, m.kind, m.id % WORD, []);
      Receive(Frame(m) + rest)
      == if m.magic != MAGIC then Nothing(tail)
         else if length == 0 then Received(head, tail)
         else Received(head.(content := tail[..length]), tail[length..])
  {
    FrameParts(m, rest);
    Words(m.id);
    Words(|m.content| % WORD);
    assert |m.content| % WORD <= |m.content|;
    HeaderRead(Frame(m) + rest, m, |m.content| % WORD, m.content + rest);
  }

  lemma HeaderRead(s: seq<Byte>, m: Message, length: nat, tail: seq<Byte>)
    requires |s| >= BASE_LENGTH && s[0] == m.magic && s[1] == m.version && s[2] == m.kind
    requires OfWord(s[3..7]) == m.id % WORD && OfWord(s[7..11]) == length && s[BASE_LENGTH..] == tail
    requires length <= |tail|
    ensures var head := Message(m.magic, m.version, m.kind, m.id % WORD, []);
      Receive(s)
      == if m.magic != MAGIC then Nothing(tail)
         else if length == 0 then Received(head, tail)
         else Received(head.(content := tail[..length]), tail[length..])
  {
  }

  /** As long as a frame is not complete, nothing is received of it. */
  lemma PartOfFrame(m: Message, k: nat)
    requires k < |Frame(m)| && |m.content| < WORD
    ensures Receive(Frame(m)[..k]).Nothing?
  {
    if k >= BASE_LENGTH {
      var s := Frame(m)[..k];
      FrameParts(m, []);
      assert Frame(m) + [] == Frame(m);
      assert s[7..11] == Word(|m.content| % WORD);
      Words(|m.content| % WORD);
      assert |s[BASE_LENGTH..]| < |m.content|;
    }
  }

  function Frames(ms: seq<Message>): (b: seq<Byte>) {
    if ms == [] then [] else Frame(ms[0]) + Frames(ms[1..])
  }

  /** Receptions one after the other, until there is nothing to receive. */
  function ReceiveAll(s: seq<Byte>): (r: (seq<Message>, seq<Byte>))
    decreases |s|
  {
    match Receive(s)
    case Nothing(rest) => ([], rest)
    case Received(m, rest) => var t := ReceiveAll(rest); ([m] + t.0, t.1)
  }

  /** The frames of a list of messages, one after the other, are received as that list, and nothing is left. */
  lemma {:induction false} FramesRoundTrip(ms: seq<Message>)
    requires forall i :: 0 <= i < |ms| ==> Default(ms[i]) && |ms[i].content| < WORD
    ensures ReceiveAll(Frames(ms)) == (ms, [])
  {
    if ms != [] {
      FrameRoundTripIff(ms[0], Frames(ms[1..]));
      FramesRoundTrip(ms[1..]);
      assert ms == [ms[0]] + ms[1..];
    }
  }

  // ---- the transfer loops ----

  /** How a loop ends: everything moved, stopped by the result of a transfer, or waiting for the next one. */
  datatype Loop = Complete | Stopped(result: int) | Waiting(left: nat)

  /** A transfer moves some bytes but no more than asked for, or meets the end (0), or fails (-1). */
  predicate Sound(results: seq<int>, left: nat) {
    results != [] && left > 0 ==>
      -1 <= results[0] <= left && (results[0] > 0 ==> Sound(results[1..], left - results[0]))
  }

  /** The loop, with results compared as signed numbers. */
  function Meant(results: seq<int>, left: nat): (r: Loop)
    requires Sound(results, left)
  {
    if left == 0 then Complete
    else if results == [] then Waiting(left)
    else if results[0] <= 0 then Stopped(results[0])
    else Meant(results[1..], left - results[0])
  }

  /** The loop as written: the result is a size_t, which is never less than zero. */
  function AsWritten(results: seq<int>, left: nat): (r: Loop) {
    if left == 0 then Complete
    else if results == [] then Waiting(left)
    else
      var len := results[0] % U64;
      if len <= 0 then Stopped(len) else AsWritten(results[1..], (left - len) % U64)
  }

  lemma {:induction false} AsWrittenNeverFails(results: seq<int>, left: nat)
    ensures AsWritten(results, left) != Stopped(-1)
  {
    if left > 0 && results != [] && results[0] % U64 > 0 {
      AsWrittenNeverFails(results[1..], (left - results[0] % U64) % U64);
    }
  }

  /** The two loops differ exactly when a transfer fails: the loop as written cannot report that. */
  lemma {:induction false} LoopsDifferIff(results: seq<int>, left: nat)
    requires Sound(results, left) && left < U64
    ensures AsWritten(results, left) != Meant(results, left) <==> Meant(results, left) == Stopped(-1)
  {
    AsWrittenNeverFails(results, left);
    if left > 0 && results != [] && results[0] > 0 {
      assert results[0] % U64 == results[0] && (left - results[0]) % U64 == left - results[0];
      LoopsDifferIff(results[1..], left - results[0]);
    }
  }

  /** After a failure it goes on with one byte more to move than before. */
  lemma FailureAddsAByte(results: seq<int>, left: nat)
    requires 0 < left < U64 - 1 && results != [] && results[0] == -1
    ensures AsWritten(results, left) == AsWritten(results[1..], left + 1)
  {
    assert (-1) % U64 == U64 - 1;
    assert (left - (U64 - 1)) % U64 == left + 1;
  }
}
