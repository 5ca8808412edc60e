/** A discovery from end to end: the registry's reply (acid/rpc/rpc_service_registry.cpp:253-292) as the
    connection pool reads it (acid/rpc/rpc_connection_pool.cpp:223-244). */
module Discovery {
  import opened Chunks
  import opened BitOps
  import opened Varints
  import opened Serializers
  import opened RoundTrips
  import opened Registries

  const NO_METHOD: nat := 3
  /** "discover service: " */
  const PREFIX: seq<Byte> := [100, 105, 115, 99, 111, 118, 101, 114, 32, 115, 101, 114, 118, 105, 99, 101, 58, 32]

  /** The addresses that equal_range finds for a name. */
  function Found(offers: seq<Offer>, name: Name): (r: seq<Name>) {
    if offers == [] then []
    else (if offers[0].name == name then [offers[0].address] else []) + Found(offers[1..], name)
  }

  function Results(name: Name, found: seq<Name>): (r: seq<Outcome>)
    ensures |r| == if found == [] then 1 else |found|
  {
    if found == [] then [Outcome(NO_METHOD, PREFIX + name, Text([]))] else Successes(found)
  }

  function Successes(found: seq<Name>): (r: seq<Outcome>)
    ensures |r| == |found| && forall i :: 0 <= i < |r| ==> r[i] == Outcome(0, [], Text(found[i]))
  {
    if found == [] then [] else [Outcome(0, [], Text(found[0]))] + Successes(found[1..])
  }

  predicate Sendable(os: seq<Outcome>) {
    forall o :: o in os ==> TypedOutcome(Str, o)
  }

  // ---- values of one kind in a row ----

  function WriteAll<T>(write: T --> seq<Byte>, xs: seq<T>): (b: seq<Byte>)
    requires forall x :: x in xs ==> write.requires(x)
  {
    if xs == [] then [] else write(xs[0]) + WriteAll(write, xs[1..])
  }

  function ReadAll<T>(read: seq<Byte> -> Parse<T>, n: nat, s: seq<Byte>): (r: Parse<seq<T>>) {
    if n == 0 then Parsed([], s)
    else
      match read(s)
      case Parsed(x, rest) =>
        (match ReadAll(read, n - 1, rest)
         case Parsed(xs, rest') => Parsed([x] + xs, rest')
         case Underflow => Underflow
         case Crash => Crash)
      case Underflow => Underflow
      case Crash => Crash
  }

  /** What comes back one by one comes back in a row. */
  lemma {:induction false} AllBack<T>(write: T --> seq<Byte>, read: seq<Byte> -> Parse<T>, xs: seq<T>, rest: seq<Byte>)
    requires forall x :: x in xs ==> write.requires(x)
    requires forall x, tail :: x in xs ==> read(write(x) + tail) == Parsed(x, tail)
    ensures ReadAll(read, |xs|, WriteAll(write, xs) + rest) == Parsed(xs, rest)
  {
    if xs != [] {
      var tail := WriteAll(write, xs[1..]) + rest;
      assert WriteAll(write, xs) + rest == write(xs[0]) + tail;
      AllBack(write, read, xs[1..], rest);
      assert xs == [xs[0]] + xs[1..];
    }
  }

  /** operator<< and operator>> of a result. */
  function Writer(t: Type): Outcome --> seq<Byte> {
    o requires TypedOutcome(t, o) => EncodeOutcome(t, o)
  }

  function Reader(t: Type, full: bool): seq<Byte> -> Parse<Outcome> {
    s => DecodeOutcome(t, s, full)
  }

  function EncodeAll(os: seq<Outcome>): (b: seq<Byte>)
    requires Sendable(os)
  {
    WriteAll(Writer(Str), os)
  }

  function DecodeAll(n: nat, s: seq<Byte>, full: bool): (r: Parse<seq<Outcome>>) {
    ReadAll(Reader(Str, full), n, s)
  }

  const U32: nat := 0x1_0000_0000

  lemma Powers()
    ensures Pow2(32) == U32
  {
    SevenBits(32);
    SevenBits(25);
    SevenBits(18);
    SevenBits(11);
    assert Pow2(4) == 2 * Pow2(3) == 4 * Pow2(2);
    assert Pow2(2) == 2 * Pow2(1);
  }

  const COUNTER: Type := Type.Unsigned(W32)

  /** Names and addresses are strings of the program; an address is never empty. */
  predicate Strings(name: Name, found: seq<Name>) {
    && |PREFIX + name| < Pow2(64)
    && forall i :: 0 <= i < |found| ==> 0 < |found[i]| < Pow2(64)
  }

  lemma ResultsAreSendable(name: Name, found: seq<Name>)
    requires Strings(name, found)
    ensures Sendable(Results(name, found))
  {
    assert Pow2(16) >= 128 by { SevenBits(16); }
  }

  /** The content of the reply. The counter has 32 bits, and as many results are written as it says. */
  function Reply(name: Name, found: seq<Name>): (b: seq<Byte>)
    requires Strings(name, found)
  {
    ResultsAreSendable(name, found);
    Powers();
    var results := Results(name, found);
    var cnt := |results| % U32;
    EncodeScalar(Str, Text(name)) + EncodeScalar(COUNTER, Num(cnt)) + EncodeAll(results[..cnt])
  }

  datatype Discovered = Addresses(found: seq<Name>) | Failed | Broken

  function Values(os: seq<Outcome>): (r: seq<Name>) {
    if os == [] then [] else [if os[0].value.Text? then os[0].value.s else []] + Values(os[1..])
  }

  /** discover(), once the reply is there; asking an empty list for its first result is undefined behaviour. */
  function Discover(s: seq<Byte>, full: bool): (r: Discovered) {
    match DecodeMembers(Cons(Str, Cons(COUNTER, Nil)), s, full)
    case Underflow => Failed
    case Crash => Broken
    case Parsed(vs, rest) =>
      if |vs| != 2 || !vs[1].Num? || vs[1].n < 0 then Failed
      else
        match DecodeAll(vs[1].n, rest, full)
        case Underflow => Failed
        case Crash => Broken
        case Parsed(os, _) => Judged(os)
  }

  function Judged(os: seq<Outcome>): (r: Discovered) {
    if os == [] then Broken
    else if os[0].code == NO_METHOD then Addresses([])
    else Addresses(Values(os))
  }

  lemma AllRoundTrip(os: seq<Outcome>, rest: seq<Byte>, full: bool)
    requires Sendable(os) && forall o :: o in os ==> o.code == 0 && o.value != Text([])
    ensures DecodeAll(|os|, EncodeAll(os) + rest, full) == Parsed(os, rest)
  {
    var write, read := Writer(Str), Reader(Str, full);
    forall o, tail | o in os ensures read(write(o) + tail) == Parsed(o, tail) {
      OutcomeRoundTripIff(Str, o, tail, full);
    }
    AllBack(write, read, os, rest);
  }

  lemma {:induction false} ValuesOfSuccesses(found: seq<Name>)
    ensures Values(Successes(found)) == found
  {
    if found != [] {
      ValuesOfSuccesses(found[1..]);
      assert Successes(found)[1..] == Successes(found[1..]);
      assert found == [found[0]] + found[1..];
    }
  }

  lemma ScalarBack(t: Type, v: Value, rest: seq<Byte>, full: bool)
    requires Scalar(t) && Typed(t, v) && (rest != [] || !t.Str?)
    ensures Decode(t, EncodeScalar(t, v) + rest, full) == Parsed(v, rest)
  {
    ScalarRoundTrip(t, v, rest, full);
  }

  /** Two scalars in a row, the second no string. */
  lemma TwoBack(t: Type, u: Type, a: Value, b: Value, body: seq<Byte>, full: bool)
    requires Scalar(t) && Scalar(u) && !u.Str? && Typed(t, a) && Typed(u, b)
    ensures DecodeMembers(Cons(t, Cons(u, Nil)), EncodeScalar(t, a) + EncodeScalar(u, b) + body, full)
         == Parsed([a, b], body)
  {
    var first, second := EncodeScalar(t, a), EncodeScalar(u, b);
    assert first + second + body == first + (second + body);
    ScalarBack(t, a, second + body, full);
    ScalarBack(u, b, body, full);
    assert DecodeMembers(Nil, body, full) == Parsed([], body) && [b] + [] == [b];
    OneMember(u, Nil, second + body, body, b, [], body, full);
    OneMember(t, Cons(u, Nil), first + (second + body), second + body, a, [b], body, full);
    assert [a] + [b] == [a, b];
  }

  lemma HeaderBack(name: Name, cnt: nat, body: seq<Byte>, full: bool)
    requires |name| < Pow2(64) && cnt < Pow2(32)
    ensures DecodeMembers(Cons(Str, Cons(COUNTER, Nil)),
                          EncodeScalar(Str, Text(name)) + EncodeScalar(COUNTER, Num(cnt)) + body, full)
         == Parsed([Text(name), Num(cnt)], body)
  {
    TwoBack(Str, COUNTER, Text(name), Num(cnt), body, full);
  }

  lemma OneMember(t: Type, ts: Types, s: seq<Byte>, tail: seq<Byte>, v: Value, vs: seq<Value>, rest: seq<Byte>,
                  full: bool)
    requires Decode(t, s, full) == Parsed(v, tail) && DecodeMembers(ts, tail, full) == Parsed(vs, rest)
    ensures DecodeMembers(Cons(t, ts), s, full) == Parsed([v] + vs, rest)
  {
  }

  lemma CutSuccesses(found: seq<Name>, k: nat)
    requires k <= |found|
    ensures Successes(found)[..k] == Successes(found[..k])
  {
  }

  /** With the read that is meant the pool gets exactly the addresses that the registry found, in their order, or
      none if it found none; it does so exactly as long as their number fits the counter. `Replies.ReplyArrives`
      says which replies the read as written takes. */
  lemma DiscoveryIff(name: Name, found: seq<Name>, full: bool)
    requires Strings(name, found)
    ensures Discover(Reply(name, found), full) == Addresses(found) <==> |found| < U32
  {
    if found == [] {
      NoneDiscovered(name, full);
    } else {
      SomeDiscovered(name, found, full);
      CountFits(found, |found| % U32, Discover(Reply(name, found), full));
    }
  }

  lemma CountFits(found: seq<Name>, cnt: nat, d: Discovered)
    requires found != [] && cnt == |found| % U32
    requires d == if cnt == 0 then Broken else Addresses(found[..cnt])
    ensures d == Addresses(found) <==> |found| < U32
  {
    if |found| < U32 {
      assert found[..cnt] == found;
    }
  }

  lemma NoneDiscovered(name: Name, full: bool)
    requires Strings(name, [])
    ensures Discover(Reply(name, []), full) == Addresses([])
  {
    NothingFound(name, full);
    var results := Results(name, []);
    assert results[..1] == results;
    var body := EncodeAll(results);
    assert 1 < Pow2(32) by { Powers(); }
    HeaderBack(name, 1, body, full);
    ReplyRead(Reply(name, []), full, Text(name), 1, body);
  }

  lemma SomeDiscovered(name: Name, found: seq<Name>, full: bool)
    requires Strings(name, found) && found != []
    ensures var cnt := |found| % U32;
      Discover(Reply(name, found), full) == if cnt == 0 then Broken else Addresses(found[..cnt])
  {
    var cnt := |found| % U32;
    SomeFound(found, cnt, full);
    var body := EncodeAll(Successes(found)[..cnt]);
    assert cnt < Pow2(32) by { Powers(); }
    HeaderBack(name, cnt, body, full);
    ReplyRead(Reply(name, found), full, Text(name), cnt, body);
  }

  lemma ReplyRead(s: seq<Byte>, full: bool, name: Value, cnt: nat, body: seq<Byte>)
    requires DecodeMembers(Cons(Str, Cons(COUNTER, Nil)), s, full) == Parsed([name, Num(cnt)], body)
    requires DecodeAll(cnt, body, full).Parsed?
    ensures Discover(s, full) == Judged(DecodeAll(cnt, body, full).value)
  {
  }

  lemma SomeFound(found: seq<Name>, cnt: nat, full: bool)
    requires found != [] && cnt <= |found|
    requires forall i :: 0 <= i < |found| ==> 0 < |found[i]| < Pow2(64)
    ensures Sendable(Successes(found)[..cnt])
    ensures var r := DecodeAll(cnt, EncodeAll(Successes(found)[..cnt]), full);
      r.Parsed? && Judged(r.value) == if cnt == 0 then Broken else Addresses(found[..cnt])
  {
    var some := Successes(found)[..cnt];
    assert Pow2(16) > 0;
    AllRoundTrip(some, [], full);
    assert EncodeAll(some) + [] == EncodeAll(some);
    CutSuccesses(found, cnt);
    ValuesOfSuccesses(found[..cnt]);
  }

  lemma NothingFound(name: Name, full: bool)
    requires Strings(name, [])
    ensures Sendable(Results(name, []))
    ensures DecodeAll(1, EncodeAll(Results(name, [])), full).Parsed?
    ensures var r := DecodeAll(1, EncodeAll(Results(name, [])), full); |r.value| == 1 && r.value[0].code == NO_METHOD
  {
    ResultsAreSendable(name, []);
    var os := Results(name, []);
    var o := os[0];
    assert EncodeAll(os[1..]) == [];
    assert EncodeAll(os) == EncodeOutcome(Str, o) + [];
    HeadRead(Str, o, [], full);
    var r := DecodeOutcome(Str, EncodeOutcome(Str, o) + [], full);
    assert DecodeAll(0, r.rest, full) == Parsed([], r.rest);
  }

  // ---- what is found, by position ----

  predicate Rising(at: seq<nat>, n: nat) {
    && (forall i, j :: 0 <= i < j < |at| ==> at[i] < at[j])
    && forall i :: 0 <= i < |at| ==> at[i] < n
  }

  /** The positions, in order, of the services of a name. */
  predicate NamedAt(services: seq<Service>, name: Name, at: seq<nat>) {
    Rising(at, |services|) && forall i :: 0 <= i < |services| ==> (i in at <==> services[i].name == name)
  }

  /** The positions, in order, of the registrations of a name that no later unregistration of their address
      undoes. */
  predicate StandingAt(ops: seq<Op>, name: Name, at: seq<nat>) {
    && Rising(at, |ops|)
    && forall i :: 0 <= i < |ops| ==>
      (i in at <==> ops[i].Register? && ops[i].name == name && !Withdrawn(ops, i))
  }

  lemma {:induction false} RisingIsUnique(a: seq<nat>, b: seq<nat>, n: nat)
    requires Rising(a, n) && Rising(b, n) && forall i :: 0 <= i < n ==> (i in a <==> i in b)
    ensures a == b
  {
    if n > 0 {
      LastOfRising(a, n);
      LastOfRising(b, n);
      RisingIsUnique(BelowLast(a, n), BelowLast(b, n), n - 1);
    } else {
      RisingFits(a, n);
      RisingFits(b, n);
    }
  }

  lemma {:induction false} RisingFits(a: seq<nat>, n: nat)
    requires Rising(a, n)
    ensures |a| <= n
  {
    if a != [] {
      var k := |a| - 1;
      RisingFits(a[..k], a[k]);
    }
  }

  function BelowLast(a: seq<nat>, n: nat): (r: seq<nat>)
    requires n > 0
  {
    if a != [] && a[|a| - 1] == n - 1 then a[..|a| - 1] else a
  }

  lemma LastOfRising(a: seq<nat>, n: nat)
    requires n > 0 && Rising(a, n)
    ensures Rising(BelowLast(a, n), n - 1)
    ensures a == BelowLast(a, n) + if n - 1 in a then [n - 1] else []
    ensures forall i :: 0 <= i < n - 1 ==> (i in BelowLast(a, n) <==> i in a)
  {
    if a != [] {
      assert forall i :: 0 <= i < |a| ==> a[i] <= a[|a| - 1];
      assert a == a[..|a| - 1] + [a[|a| - 1]];
    }
  }

  /** Those positions from number `i` on, by going through the history. */
  ghost function StandingFrom(ops: seq<Op>, name: Name, i: nat): (at: seq<nat>)
    requires i <= |ops|
    decreases |ops| - i
  {
    if i == |ops| then []
    else
      (if ops[i].Register? && ops[i].name == name && !Withdrawn(ops, i) then [i] else [])
      + StandingFrom(ops, name, i + 1)
  }

  lemma {:induction false} StandingFromIs(ops: seq<Op>, name: Name, i: nat)
    requires i <= |ops|
    ensures var at := StandingFrom(ops, name, i);
      && (forall k :: 0 <= k < |at| ==> i <= at[k] < |ops|)
      && (forall k, l :: 0 <= k < l < |at| ==> at[k] < at[l])
      && forall k :: i <= k < |ops| ==>
        (k in at <==> ops[k].Register? && ops[k].name == name && !Withdrawn(ops, k))
    decreases |ops| - i
  {
    if i < |ops| {
      StandingFromIs(ops, name, i + 1);
    }
  }

  /** There are such positions, in one order only. */
  lemma StandingIsThere(ops: seq<Op>, name: Name)
    ensures StandingAt(ops, name, StandingFrom(ops, name, 0))
    ensures forall at :: StandingAt(ops, name, at) ==> at == StandingFrom(ops, name, 0)
  {
    StandingFromIs(ops, name, 0);
    forall at | StandingAt(ops, name, at) ensures at == StandingFrom(ops, name, 0) {
      RisingIsUnique(at, StandingFrom(ops, name, 0), |ops|);
    }
  }

  /** The addresses that the operations at some positions are about. */
  function AddressesAt(ops: seq<Op>, at: seq<nat>): (r: seq<Name>)
    requires forall k :: 0 <= k < |at| ==> at[k] < |ops|
    ensures |r| == |at| && forall k :: 0 <= k < |at| ==> r[k] == ops[at[k]].address
  {
    if at == [] then [] else [ops[at[0]].address] + AddressesAt(ops, at[1..])
  }

  /** The address that an operation adds to those found under a name. */
  function Adds(ops: seq<Op>, name: Name, i: nat): (r: seq<Name>)
    requires i < |ops|
  {
    if ops[i].Register? && ops[i].name == name && !Withdrawn(ops, i) then [ops[i].address] else []
  }

  lemma FoundFrom(ops: seq<Op>, name: Name, i: nat)
    requires i < |ops|
    ensures Found(Standing(ops, i), name) == Adds(ops, name, i) + Found(Standing(ops, i + 1), name)
  {
    var later := Standing(ops, i + 1);
    if ops[i].Register? && !Withdrawn(ops, i) {
      FoundFirst(Offer(ops[i].name, ops[i].address), later, name);
    } else {
      assert [] + later == later;
    }
  }

  lemma AddressesFrom(ops: seq<Op>, name: Name, i: nat, later: seq<nat>)
    requires i < |ops| && later == StandingFrom(ops, name, i + 1)
    requires forall k :: 0 <= k < |later| ==> later[k] < |ops|
    ensures var at := StandingFrom(ops, name, i);
      && (forall k :: 0 <= k < |at| ==> at[k] < |ops|)
      && AddressesAt(ops, at) == Adds(ops, name, i) + AddressesAt(ops, later)
  {
    if Adds(ops, name, i) != [] {
      assert ([i] + later)[1..] == later;
    } else {
      assert [] + later == later;
    }
  }

  lemma {:induction false} FoundIsStanding(ops: seq<Op>, name: Name, i: nat)
    requires i <= |ops|
    ensures forall k :: 0 <= k < |StandingFrom(ops, name, i)| ==> StandingFrom(ops, name, i)[k] < |ops|
    ensures Found(Standing(ops, i), name) == AddressesAt(ops, StandingFrom(ops, name, i))
    decreases |ops| - i
  {
    if i < |ops| {
      FoundIsStanding(ops, name, i + 1);
      FoundFrom(ops, name, i);
      AddressesFrom(ops, name, i, StandingFrom(ops, name, i + 1));
    }
  }

  lemma FoundFirst(x: Offer, later: seq<Offer>, name: Name)
    ensures Found([x] + later, name) == if x.name == name then [x.address] + Found(later, name) else Found(later, name)
  {
    assert ([x] + later)[1..] == later;
  }

  /** After any history of registrations and unregistrations, discovering a name gives the addresses of exactly
      the registrations of that name that no later unregistration undid, in the order in which they were made. */
  lemma DiscoveryTellsWhatStands(ops: seq<Op>, name: Name, at: seq<nat>, full: bool)
    requires StandingAt(ops, name, at) && Strings(name, AddressesAt(ops, at)) && |at| < U32
    ensures Found(Offers(After(ops).services), name) == AddressesAt(ops, at)
    ensures Discover(Reply(name, Found(Offers(After(ops).services), name)), full) == Addresses(AddressesAt(ops, at))
  {
    StandingIsThere(ops, name);
    ServicesAreWhatStands(ops);
    FoundIsStanding(ops, name, 0);
    DiscoveryIff(name, AddressesAt(ops, at), full);
  }
}
