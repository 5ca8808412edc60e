/** When operator>> gives back what operator<< took (acid/rpc/serializer.h, acid/rpc/rpc.h:138-155), and what
    that means for a call (acid/rpc/rpc_client.h:63-86, acid/rpc/rpc_server.cpp:219-227). All of it is about the read
    that is meant, which is the one as written where the contents lie within one block. */
module RoundTrips {
  import opened Chunks
  import opened BitOps
  import opened Varints
  import opened Serializers

  /** A scalar, a container of scalars, or a tuple of such types, at any depth of tuples. */
  predicate Plain(t: Type) {
    match t
    case Box(_, e) => Scalar(e)
    case Tuple(ts) => PlainMembers(ts)
    case _ => true
  }

  predicate PlainMembers(ts: Types) {
    match ts
    case Nil => true
    case Cons(t, rest) => Plain(t) && PlainMembers(rest)
  }

  /** The last thing written for the value is an empty string. */
  predicate EndsEmpty(t: Type, v: Value)
    requires Typed(t, v)
    decreases t
  {
    match t
    case Str => v.s == []
    case Box(_, e) => v.elements != [] && EndsEmpty(e, v.elements[|v.elements| - 1])
    case Tuple(ts) => MembersEndEmpty(ts, v.elements)
    case _ => false
  }

  predicate MembersEndEmpty(ts: Types, vs: seq<Value>)
    requires TypedMembers(ts, vs)
    decreases ts
  {
    match ts
    case Nil => false
    case Cons(t, rest) =>
      || MembersEndEmpty(rest, vs[1..])
      || (EncodeMembers(rest, vs[1..]) == [] && EndsEmpty(t, vs[0]))
  }

  // ---- scalars ----

  lemma RawBack(t: Type, v: Value)
    requires Scalar(t) && !t.Str? && Typed(t, v)
    ensures ToRaw(t, v) < Pow2(BitsOf(t)) && OfRaw(t, ToRaw(t, v)) == v
  {
    var n := BitsOf(t);
    if t.Bool? {
      PowersAgree();
    } else if t.Signed? && !Fixed(t) {
      ZigZagMeaning(v.n, n);
      ZigZagBack(v.n, n);
    } else if t.Signed? {
      assert Pow2(n) == 2 * Pow2(n - 1);
    }
  }

  lemma FixedBack(u: nat, n: nat)
    requires u < Pow256(n)
    ensures FromMemory(InMemory(u, n, Big), Big) == u
  {
    LowFirstInverse(u, n, []);
    ReverseTwice(LowFirst(u, n));
  }

  lemma VarBack(u: nat, bits: nat, rest: seq<Byte>)
    requires bits > 0 && u < Pow2(bits)
    ensures DecodeVar(VarBytes(u) + rest, bits) == Parsed(u, rest)
  {
    VarRoundTrip(u, bits, rest);
  }

  lemma BytesBack(b: seq<Byte>, rest: seq<Byte>, full: bool)
    ensures ReadBytes(b + rest, |b|, full) == if full && b + rest == [] then Crash else Parsed(b, rest)
  {
    assert (b + rest)[..|b|] == b && (b + rest)[|b|..] == rest;
  }

  lemma ScalarRoundTrip(t: Type, v: Value, rest: seq<Byte>, full: bool)
    requires Scalar(t) && Typed(t, v)
    ensures DecodeScalar(t, EncodeScalar(t, v) + rest, full)
         == if full && rest == [] && EndsEmpty(t, v) then Crash else Parsed(v, rest)
  {
    if t.Str? {
      StringRoundTrip(v.s, rest, full);
    } else {
      NumberRoundTrip(t, v, rest, full);
    }
  }

  lemma StringRoundTrip(b: seq<Byte>, rest: seq<Byte>, full: bool)
    requires |b| < Pow2(64)
    ensures DecodeScalar(Str, EncodeScalar(Str, Text(b)) + rest, full)
         == if full && rest == [] && b == [] then Crash else Parsed(Text(b), rest)
  {
    assert EncodeScalar(Str, Text(b)) + rest == VarBytes(|b|) + (b + rest);
    VarBack(|b|, 64, b + rest);
    BytesBack(b, rest, full);
  }

  lemma NumberRoundTrip(t: Type, v: Value, rest: seq<Byte>, full: bool)
    requires Scalar(t) && !t.Str? && Typed(t, v)
    ensures DecodeScalar(t, EncodeScalar(t, v) + rest, full) == Parsed(v, rest)
  {
    RawBack(t, v);
    var u, n := ToRaw(t, v), BitsOf(t);
    if Fixed(t) {
      PowersAgree();
      FixedBack(u, n / 8);
      BytesBack(InMemory(u, n / 8, Big), rest, full);
    } else {
      VarBack(u, n, rest);
    }
  }

  /** What write() puts into the array for a narrow scalar: one or two bytes, high byte first and in two's
      complement. */
  lemma NarrowScalarWire(t: Type, v: Value)
    requires Scalar(t) && !t.Str? && Fixed(t) && Typed(t, v)
    ensures EncodeScalar(t, v)
         == if BitsOf(t) == 8 then [v.n % 256] else [(v.n % 0x1_0000) / 256, v.n % 256]
  {
    var u := RawOfNarrow(t, v);
    NarrowWire(u, BitsOf(t) / 8);
    if BitsOf(t) == 16 {
      WordBytes(v.n, u);
    }
  }

  lemma RawOfNarrow(t: Type, v: Value) returns (u: nat)
    requires Scalar(t) && !t.Str? && Fixed(t) && Typed(t, v)
    ensures u == ToRaw(t, v)
    ensures if BitsOf(t) == 8 then u % 256 == v.n % 256 else u < 0x1_0000 && (u == v.n || u == v.n + 0x1_0000)
  {
    u := ToRaw(t, v);
    PowersAgree();
    assert Pow256(2) == 256 * Pow256(1) && Pow256(1) == 256 * Pow256(0);
  }

  lemma WordBytes(n: int, u: nat)
    requires u < 0x1_0000 && (u == n || u == n + 0x1_0000)
    ensures (u / 256) % 256 == (n % 0x1_0000) / 256 && u % 256 == n % 256
  {
  }

  /** And for a wide one: a varint, zigzagged if it is signed, and for a string its length and its bytes. */
  lemma WideScalarWire(t: Type, v: Value)
    requires Scalar(t) && (t.Str? || !Fixed(t)) && Typed(t, v)
    ensures EncodeScalar(t, v)
         == if t.Str? then VarBytes(|v.s|) + v.s
            else VarBytes(if t.Unsigned? then v.n else if v.n >= 0 then 2 * v.n else -2 * v.n - 1)
  {
    if t.Signed? {
      ZigZagMeaning(v.n, BitsOf(t));
    }
  }

  lemma NarrowWire(u: nat, n: nat)
    requires n == 1 || n == 2
    ensures InMemory(u, n, Big) == if n == 1 then [u % 256] else [(u / 256) % 256, u % 256]
  {
    assert Pow256(0) == 1 && Pow256(1) == 256;
    ByteOrder(u, n, 0);
    ByteOrder(u, n, n - 1);
  }

  // ---- containers of scalars ----

  /** The elements of a container of scalars, one after the other, whatever the container. */
  function EncodeScalars(e: Type, vs: seq<Value>): (b: seq<Byte>)
    requires Scalar(e) && forall x :: x in vs ==> Typed(e, x)
    ensures vs != [] ==> |b| > 0
  {
    if vs == [] then [] else EncodeScalar(e, vs[0]) + EncodeScalars(e, vs[1..])
  }

  lemma {:induction false} ScalarItems(k: Kind, e: Type, vs: seq<Value>)
    requires Scalar(e) && forall x :: x in vs ==> Typed(e, x)
    ensures EncodeItems(k, e, vs) == EncodeScalars(e, vs)
  {
    if vs != [] {
      ScalarItems(k, e, vs[1..]);
    }
  }

  /** The one case in which the elements do not come back. */
  predicate ItemsCrash(e: Type, vs: seq<Value>, rest: seq<Byte>, full: bool)
    requires Scalar(e) && forall x :: x in vs ==> Typed(e, x)
  {
    full && rest == [] && vs != [] && EndsEmpty(e, vs[|vs| - 1])
  }

  lemma ItemsCrashLast(e: Type, v: Value, ws: seq<Value>, rest: seq<Byte>, full: bool)
    requires Scalar(e) && Typed(e, v) && forall x :: x in ws ==> Typed(e, x)
    ensures ItemsCrash(e, [v] + ws, rest, full)
        <==> ItemsCrash(e, ws, rest, full) || (full && EncodeScalars(e, ws) + rest == [] && EndsEmpty(e, v))
  {
    var all := [v] + ws;
    if ws == [] {
      assert all == [v] && EncodeScalars(e, ws) + rest == rest;
    } else {
      assert all[|all| - 1] == ws[|ws| - 1];
      SomeBytes(e, ws);
    }
  }

  lemma SomeBytes(e: Type, vs: seq<Value>)
    requires Scalar(e) && vs != [] && forall x :: x in vs ==> Typed(e, x)
    ensures |EncodeScalars(e, vs)| > 0
  {
  }

  lemma {:induction false} ItemsRoundTrip(e: Type, vs: seq<Value>, rest: seq<Byte>, full: bool)
    requires Scalar(e) && forall x :: x in vs ==> Typed(e, x)
    ensures DecodeItems(e, |vs|, EncodeScalars(e, vs) + rest, full)
         == if ItemsCrash(e, vs, rest, full) then Crash else Parsed(vs, rest)
  {
    if vs != [] {
      var v, ws := vs[0], vs[1..];
      var tail := EncodeScalars(e, ws) + rest;
      assert EncodeScalars(e, vs) + rest == EncodeScalar(e, v) + tail;
      assert vs == [v] + ws;
      ScalarRoundTrip(e, v, tail, full);
      ItemsRoundTrip(e, ws, rest, full);
      ItemsStep(e, v, ws, EncodeScalar(e, v) + tail, tail, rest, full);
      ItemsCrashLast(e, v, ws, rest, full);
    }
  }

  lemma ItemsStep(e: Type, v: Value, vs: seq<Value>, s: seq<Byte>, tail: seq<Byte>, rest: seq<Byte>, full: bool)
    requires Scalar(e)
    ensures DecodeScalar(e, s, full) == Parsed(v, tail) && DecodeItems(e, |vs|, tail, full) == Parsed(vs, rest) ==>
      DecodeItems(e, |vs| + 1, s, full) == Parsed([v] + vs, rest)
    ensures DecodeScalar(e, s, full) == Parsed(v, tail) && DecodeItems(e, |vs|, tail, full) == Crash ==>
      DecodeItems(e, |vs| + 1, s, full) == Crash
    ensures DecodeScalar(e, s, full) == Crash ==> DecodeItems(e, |vs| + 1, s, full) == Crash
  {
  }

  lemma {:induction false} DedupOfDistinct(vs: seq<Value>)
    requires Serializers.Distinct(vs)
    ensures Dedup(vs) == vs
  {
    if vs != [] {
      var n := |vs| - 1;
      DedupOfDistinct(vs[..n]);
      assert vs == vs[..n] + [vs[n]];
    }
  }

  // ---- every plain type ----

  lemma {:induction false} EndsEmptyEncodes(t: Type, v: Value)
    requires Typed(t, v) && EndsEmpty(t, v)
    ensures Encode(t, v) != []
    decreases t
  {
    if t.Tuple? {
      MembersEndEmptyEncode(t.members, v.elements);
    }
  }

  lemma {:induction false} MembersEndEmptyEncode(ts: Types, vs: seq<Value>)
    requires TypedMembers(ts, vs) && MembersEndEmpty(ts, vs)
    ensures EncodeMembers(ts, vs) != []
    decreases ts
  {
    if MembersEndEmpty(ts.tail, vs[1..]) {
      MembersEndEmptyEncode(ts.tail, vs[1..]);
    } else {
      EndsEmptyEncodes(ts.head, vs[0]);
    }
  }

  /**
    What is written for a value of a plain type is read back as that value, with whatever follows left over, by the
    read that is meant. One case is left: the array ends exactly at its capacity, nothing follows, and the last
    thing written is an empty string. Then reading it follows the null cursor.
   */
  lemma {:induction false} RoundTrip(t: Type, v: Value, rest: seq<Byte>, full: bool)
    requires Plain(t) && Typed(t, v)
    ensures Decode(t, Encode(t, v) + rest, full)
         == if full && rest == [] && EndsEmpty(t, v) then Crash else Parsed(v, rest)
    decreases t
  {
    match t {
      case Box(k, e) =>
        var body := EncodeItems(k, e, v.elements);
        assert Encode(t, v) + rest == VarBytes(|v.elements|) + (body + rest);
        VarBack(|v.elements|, 64, body + rest);
        ScalarItems(k, e, v.elements);
        ItemsRoundTrip(e, v.elements, rest, full);
        if IsSet(k) {
          DedupOfDistinct(v.elements);
        }
      case Tuple(ts) =>
        MembersRoundTrip(ts, v.elements, rest, full);
      case _ =>
        ScalarRoundTrip(t, v, rest, full);
    }
  }

  lemma {:induction false} MembersRoundTrip(ts: Types, vs: seq<Value>, rest: seq<Byte>, full: bool)
    requires PlainMembers(ts) && TypedMembers(ts, vs)
    ensures DecodeMembers(ts, EncodeMembers(ts, vs) + rest, full)
         == if full && rest == [] && MembersEndEmpty(ts, vs) then Crash else Parsed(vs, rest)
    decreases ts
  {
    if ts.Cons? {
      var tail := EncodeMembers(ts.tail, vs[1..]) + rest;
      assert EncodeMembers(ts, vs) + rest == Encode(ts.head, vs[0]) + tail;
      RoundTrip(ts.head, vs[0], tail, full);
      MembersRoundTrip(ts.tail, vs[1..], rest, full);
      assert vs == [vs[0]] + vs[1..];
      if MembersEndEmpty(ts.tail, vs[1..]) {
        MembersEndEmptyEncode(ts.tail, vs[1..]);
      }
    }
  }

  // ---- containers of containers ----

  function Repeat(v: Value, n: nat): (r: seq<Value>)
    ensures |r| == n && forall i :: 0 <= i < n ==> r[i] == v
  {
    if n == 0 then [] else [v] + Repeat(v, n - 1)
  }

  lemma {:induction false} NestedItemsAreBlank(e: Type, n: nat, s: seq<Byte>, full: bool)
    requires !Scalar(e)
    ensures DecodeItems(e, n, s, full) == Parsed(Repeat(Blank(e), n), s)
  {
    if n > 0 {
      NestedItemsAreBlank(e, n - 1, s, full);
    }
  }

  lemma {:induction false} DedupOnlyKeeps(vs: seq<Value>)
    ensures forall v :: v in Dedup(vs) ==> v in vs
  {
    if vs != [] {
      DedupOnlyKeeps(vs[..|vs| - 1]);
    }
  }

  lemma NestedDecodes(k: Kind, e: Type, vs: seq<Value>, rest: seq<Byte>, full: bool)
    requires !Scalar(e) && Typed(Box(k, e), Items(vs))
    ensures Decode(Box(k, e), Encode(Box(k, e), Items(vs)) + rest, full)
         == Parsed(Items(Collect(k, Repeat(Blank(e), |vs|))), EncodeItems(k, e, vs) + rest)
  {
    var body := EncodeItems(k, e, vs);
    assert Encode(Box(k, e), Items(vs)) + rest == VarBytes(|vs|) + (body + rest);
    VarBack(|vs|, 64, body + rest);
    NestedItemsAreBlank(e, |vs|, body + rest, full);
  }

  lemma CollectedBlanks(k: Kind, v: Value, vs: seq<Value>)
    requires IsSet(k) ==> Serializers.Distinct(vs)
    ensures Collect(k, Repeat(v, |vs|)) == vs <==> forall x :: x in vs ==> x == v
  {
    var blanks := Repeat(v, |vs|);
    DedupOnlyKeeps(blanks);
    if forall x :: x in vs ==> x == v {
      forall i | 0 <= i < |vs| ensures vs[i] == blanks[i] {
        assert vs[i] in vs;
      }
      assert vs == blanks;
      if IsSet(k) {
        DedupOfDistinct(vs);
      }
    }
    if Collect(k, blanks) == vs {
      forall x | x in vs ensures x == v {
        assert x in blanks;
      }
    }
  }

  /**
    A container whose elements are containers or tuples is read back, with its own bytes and no others, exactly
    when nothing was written for the elements and each of them is as a new variable is.
   */
  lemma NestedRoundTripIff(k: Kind, e: Type, vs: seq<Value>, rest: seq<Byte>, full: bool)
    requires !Scalar(e) && Typed(Box(k, e), Items(vs))
    ensures Decode(Box(k, e), Encode(Box(k, e), Items(vs)) + rest, full) == Parsed(Items(vs), rest)
       <==> EncodeItems(k, e, vs) == [] && forall x :: x in vs ==> x == Blank(e)
  {
    NestedDecodes(k, e, vs, rest, full);
    CollectedBlanks(k, Blank(e), vs);
    OnlyNothing(EncodeItems(k, e, vs), rest);
  }

  lemma OnlyNothing(body: seq<Byte>, rest: seq<Byte>)
    ensures body + rest == rest <==> body == []
  {
    assert |body + rest| == |body| + |rest|;
  }

  /** Which containers write anything for elements that are containers or tuples: lists, vectors and ordered sets
      write each as it is, the others nothing. */
  lemma {:induction false} NestedElementsWire(k: Kind, e: Type, vs: seq<Value>)
    requires !Scalar(e) && forall x :: x in vs ==> Typed(e, x)
    ensures k == HashSet || k == OrderedBag || k == HashBag ==> EncodeItems(k, e, vs) == []
    ensures k == List || k == Vector || k == OrderedSet ==>
      EncodeItems(k, e, vs) == if vs == [] then [] else Encode(e, vs[0]) + EncodeItems(k, e, vs[1..])
  {
    if vs != [] {
      NestedElementsWire(k, e, vs[1..]);
    }
  }

  /** So a list, vector or ordered set of containers comes back only if it is empty. */
  lemma NestedContainersNeedEmpty(k: Kind, k': Kind, e: Type, vs: seq<Value>, rest: seq<Byte>, full: bool)
    requires k == List || k == Vector || k == OrderedSet
    requires Typed(Box(k, Box(k', e)), Items(vs))
    ensures Decode(Box(k, Box(k', e)), Encode(Box(k, Box(k', e)), Items(vs)) + rest, full) == Parsed(Items(vs), rest)
       <==> vs == []
  {
    NestedRoundTripIff(k, Box(k', e), vs, rest, full);
    if vs != [] {
      assert |Encode(Box(k', e), vs[0])| > 0;
    }
  }

  // ---- the result of a call ----

  /** Result<T>: code, message, and a value that is written always and read only after success. */
  datatype Outcome = Outcome(code: nat, message: seq<Byte>, value: Value)

  predicate TypedOutcome(t: Type, o: Outcome) {
    o.code < Pow2(16) && |o.message| < Pow2(64) && Typed(t, o.value)
  }

  const HEAD: Types := Cons(Type.Unsigned(W16), Cons(Str, Nil))

  function EncodeOutcome(t: Type, o: Outcome): (b: seq<Byte>)
    requires TypedOutcome(t, o)
  {
    EncodeMembers(HEAD, [Num(o.code), Text(o.message)]) + Encode(t, o.value)
  }

  function DecodeOutcome(t: Type, s: seq<Byte>, full: bool): (r: Parse<Outcome>) {
    match DecodeMembers(HEAD, s, full)
    case Parsed(vs, rest) =>
      if |vs| == 2 && vs[0].Num? && vs[0].n >= 0 && vs[1].Text? then
        if vs[0].n == 0 then
          match Decode(t, rest, full)
          case Parsed(v, rest') => Parsed(Outcome(0, vs[1].s, v), rest')
          case Underflow => Underflow
          case Crash => Crash
        else Parsed(Outcome(vs[0].n, vs[1].s, Blank(t)), rest)
      else Underflow
    case Underflow => Underflow
    case Crash => Crash
  }

  /** The code and the message are read back; after a failure the bytes of the value are left over. */
  lemma HeadRead(t: Type, o: Outcome, rest: seq<Byte>, full: bool)
    requires Plain(t) && TypedOutcome(t, o)
    requires full && rest == [] ==> Encode(t, o.value) != []
    ensures DecodeMembers(HEAD, EncodeOutcome(t, o) + rest, full)
         == Parsed([Num(o.code), Text(o.message)], Encode(t, o.value) + rest)
    ensures o.code != 0 ==>
      DecodeOutcome(t, EncodeOutcome(t, o) + rest, full)
      == Parsed(Outcome(o.code, o.message, Blank(t)), Encode(t, o.value) + rest)
  {
    var vs := [Num(o.code), Text(o.message)];
    var body := Encode(t, o.value);
    assert vs[1..] == [Text(o.message)] && vs[1..][1..] == [];
    assert TypedMembers(HEAD, vs);
    assert EncodeOutcome(t, o) + rest == EncodeMembers(HEAD, vs) + (body + rest);
    MembersRoundTrip(HEAD, vs, body + rest, full);
    assert |body + rest| == |body| + |rest|;
  }

  /**
    A result is read back with its own bytes and no others exactly when it is a success, or its value was
    written as nothing and is as a new variable is.
   */
  lemma OutcomeRoundTripIff(t: Type, o: Outcome, rest: seq<Byte>, full: bool)
    requires Plain(t) && TypedOutcome(t, o)
    requires full && rest == [] ==> Encode(t, o.value) != [] && !EndsEmpty(t, o.value)
    ensures DecodeOutcome(t, EncodeOutcome(t, o) + rest, full) == Parsed(o, rest)
       <==> o.code == 0 || (Encode(t, o.value) == [] && o.value == Blank(t))
  {
    HeadRead(t, o, rest, full);
    RoundTrip(t, o.value, rest, full);
    OnlyNothing(Encode(t, o.value), rest);
  }

  /** The answer of a successful call is read back whole by the read that is meant, but for the one case of a value
      that ends in an empty string at the very end of its array's blocks. `Replies.AnswerArrives` says which answers
      the read as written takes. */
  lemma AnswerRead(t: Type, o: Outcome, full: bool)
    requires Plain(t) && TypedOutcome(t, o) && o.code == 0 && Encode(t, o.value) != []
    ensures DecodeOutcome(t, EncodeOutcome(t, o), full)
         == if full && EndsEmpty(t, o.value) then Crash else Parsed(o, [])
  {
    var body := Encode(t, o.value);
    HeadRead(t, o, [], full);
    RoundTrip(t, o.value, [], full);
    assert EncodeOutcome(t, o) + [] == EncodeOutcome(t, o) && body + [] == body;
  }

  // ---- a call ----

  /** The content of a request: the name of the method and the tuple of its arguments. */
  function Request(name: seq<Byte>, ts: Types, args: seq<Value>): (b: seq<Byte>)
    requires |name| < Pow2(64) && TypedMembers(ts, args)
  {
    EncodeScalar(Str, Text(name)) + EncodeMembers(ts, args)
  }

  /** Whether an array of 4096-byte blocks that was filled with `n` bytes is filled to its capacity. */
  predicate FillsBlocks(n: nat) {
    n > 0 && n % 4096 == 0
  }

  /**
    The server splits a request into the method's name and the bytes behind it, copies those into an array of
    their own and reads the arguments: with the read that is meant it sees exactly what the client passed. The one
    case left is that of arguments that fill the blocks of their array and end in an empty string: reading that
    follows the null cursor. The name is always read, even an empty one without arguments. `RpcRequests.CallArrives`
    says which calls the read as written takes.
   */
  lemma ServerSeesTheCall(name: seq<Byte>, ts: Types, args: seq<Value>)
    requires |name| < Pow2(64) && PlainMembers(ts) && TypedMembers(ts, args)
    ensures var content := Request(name, ts, args);
      var split := DecodeScalar(Str, content, FillsBlocks(|content|));
      && split == Parsed(Text(name), EncodeMembers(ts, args))
      && DecodeMembers(ts, split.rest, FillsBlocks(|split.rest|))
         == if FillsBlocks(|split.rest|) && MembersEndEmpty(ts, args) then Crash else Parsed(args, [])
  {
    var content, tail := Request(name, ts, args), EncodeMembers(ts, args);
    ScalarRoundTrip(Str, Text(name), tail, FillsBlocks(|content|));
    if tail == [] && name == [] {
      assert |VarBytes(0)| == 1;
      assert |content| == 1;
    }
    assert tail + [] == tail;
    MembersRoundTrip(ts, args, [], FillsBlocks(|tail|));
  }
}
