/**
  The tagless serialization of acid/rpc/serializer.h on values: what each operator writes, what each reads,
  and when the two fit. A reader is told the type; nothing in the bytes names it.

  Bytes are read as ByteArray::read is meant to read them (`ByteArrays.ByteArray.Read`). As written it does so in an
  array of one block; where there are more, a read that starts at the second block, or reaches the end of a later
  one, goes wrong (`BlockReads.AsWrittenReadIff`, `RpcRequests.LongArgumentsLost`).
 */
module Serializers {
  import opened Chunks
  import opened BitOps
  import opened Varints

  datatype Width = W8 | W16 | W32 | W64

  /** How a container takes its elements. A set drops an element it has already. */
  datatype Kind = List | Vector | OrderedSet | HashSet | OrderedBag | HashBag

  datatype Type =
    | Bool
    | Signed(width: Width)
    | Unsigned(width: Width)
    | Str
    | Box(kind: Kind, element: Type)
    | Tuple(members: Types)

  datatype Types = Nil | Cons(head: Type, tail: Types)

  /** A container is given by its elements in the order in which it is walked; two sets or bags with the same
      elements are equal whatever the order. */
  datatype Value = Num(n: int) | Text(s: seq<Byte>) | Items(elements: seq<Value>)

  /** What reading comes to; `Underflow` is the out_of_range exception, `Crash` is undefined behaviour. */
  datatype Parse<T> = Parsed(value: T, rest: seq<Byte>) | Underflow | Crash

  function Bits(w: Width): (r: nat)
    ensures r > 0
  {
    match w case W8 => 8 case W16 => 16 case W32 => 32 case W64 => 64
  }

  predicate Scalar(t: Type) {
    t.Bool? || t.Signed? || t.Unsigned? || t.Str?
  }

  predicate IsSet(k: Kind) {
    k == OrderedSet || k == HashSet
  }

  predicate Distinct(vs: seq<Value>) {
    forall i, j :: 0 <= i < j < |vs| ==> vs[i] != vs[j]
  }

  /** The values that a variable of the type can hold. */
  predicate Typed(t: Type, v: Value)
    decreases t, 0
  {
    match t
    case Bool => v == Num(0) || v == Num(1)
    case Signed(w) => v.Num? && Fits(v.n, Bits(w))
    case Unsigned(w) => v.Num? && 0 <= v.n < Pow2(Bits(w))
    case Str => v.Text? && |v.s| < Pow2(64)
    case Box(k, e) =>
      && v.Items? && |v.elements| < Pow2(64)
      && (forall x :: x in v.elements ==> Typed(e, x))
      && (IsSet(k) ==> Distinct(v.elements))
    case Tuple(ts) => v.Items? && TypedMembers(ts, v.elements)
  }

  predicate TypedMembers(ts: Types, vs: seq<Value>)
    decreases ts, 0
  {
    match ts
    case Nil => vs == []
    case Cons(t, rest) => vs != [] && Typed(t, vs[0]) && TypedMembers(rest, vs[1..])
  }

  // ---- writing ----

  function BitsOf(t: Type): (r: nat)
    requires Scalar(t) && !t.Str?
    ensures r > 0
  {
    if t.Bool? then 8 else Bits(t.width)
  }

  /** Types of 8 and 16 bits are written in full, high byte first; the others as varints. */
  predicate Fixed(t: Type)
    requires Scalar(t) && !t.Str?
  {
    BitsOf(t) < 32
  }

  /** The unsigned number that stands for a value on the wire: zigzagged if it is signed and goes as a
      varint, its two's complement if it is signed and goes in full. */
  function ToRaw(t: Type, v: Value): (u: nat)
    requires Scalar(t) && !t.Str? && Typed(t, v)
  {
    if !t.Signed? then v.n
    else if Fixed(t) then BitOps.Unsigned(v.n, BitsOf(t))
    else EncodeZigZag(v.n, BitsOf(t))
  }

  function OfRaw(t: Type, u: nat): (v: Value)
    requires Scalar(t) && !t.Str? && u < Pow2(BitsOf(t))
  {
    if t.Bool? then Num(if u == 0 then 0 else 1)
    else if t.Unsigned? then Num(u)
    else if Fixed(t) then Num(BitOps.Signed(u, BitsOf(t)))
    else Num(DecodeZigZag(u, BitsOf(t)))
  }

  /** write(T) */
  function EncodeScalar(t: Type, v: Value): (b: seq<Byte>)
    requires Scalar(t) && Typed(t, v)
    ensures |b| > 0
  {
    if t.Str? then VarBytes(|v.s|) + v.s
    else if Fixed(t) then InMemory(ToRaw(t, v), BitsOf(t) / 8, Big)
    else VarBytes(ToRaw(t, v))
  }

  /** operator<<, for every type. */
  function Encode(t: Type, v: Value): (b: seq<Byte>)
    requires Typed(t, v)
    decreases t, 0
  {
    match t
    case Box(k, e) => VarBytes(|v.elements|) + EncodeItems(k, e, v.elements)
    case Tuple(ts) => EncodeMembers(ts, v.elements)
    case _ => EncodeScalar(t, v)
  }

  function EncodeMembers(ts: Types, vs: seq<Value>): (b: seq<Byte>)
    requires TypedMembers(ts, vs)
    decreases ts, 0
  {
    match ts
    case Nil => []
    case Cons(t, rest) => Encode(t, vs[0]) + EncodeMembers(rest, vs[1..])
  }

  /** The elements of a container: list, vector and set use operator<< on them, the others write(), which
      writes nothing for an element that is itself a container or a tuple. */
  function EncodeItems(k: Kind, e: Type, vs: seq<Value>): (b: seq<Byte>)
    requires forall x :: x in vs ==> Typed(e, x)
    decreases e, |vs| + 2
  {
    if vs == [] then [] else EncodeItem(k, e, vs[0]) + EncodeItems(k, e, vs[1..])
  }

  function EncodeItem(k: Kind, e: Type, v: Value): (b: seq<Byte>)
    requires Typed(e, v)
    decreases e, 1
  {
    if Scalar(e) || k == List || k == Vector || k == OrderedSet then Encode(e, v) else []
  }

  // ---- reading ----

  /** read(buffer, n) on an array whose unread bytes are `s`; `full` says that the size is the capacity. Then
      behind the last byte the cursor is null, and even a read of nothing follows it. */
  function ReadBytes(s: seq<Byte>, n: nat, full: bool): (r: Parse<seq<Byte>>) {
    if n > |s| then Underflow
    else if full && s == [] then Crash
    else Parsed(s[..n], s[n..])
  }

  function DecodeVar(s: seq<Byte>, bits: nat): (r: Parse<nat>) {
    match ReadVar(s, bits)
    case Short => Underflow
    case Value(v, n) => if n <= |s| then Parsed(v, s[n..]) else Underflow
  }

  function DecodeRaw(t: Type, s: seq<Byte>, full: bool): (r: Parse<nat>)
    requires Scalar(t) && !t.Str?
  {
    if !Fixed(t) then DecodeVar(s, BitsOf(t))
    else
      match ReadBytes(s, BitsOf(t) / 8, full)
      case Parsed(b, rest) => Parsed(FromMemory(b, Big), rest)
      case Underflow => Underflow
      case Crash => Crash
  }

  /** read(T&), for the types that it does something for. */
  function DecodeScalar(t: Type, s: seq<Byte>, full: bool): (r: Parse<Value>)
    requires Scalar(t)
  {
    if t.Str? then
      match DecodeVar(s, 64)
      case Parsed(n, rest) =>
        (match ReadBytes(rest, n, full)
         case Parsed(b, rest') => Parsed(Text(b), rest')
         case Underflow => Underflow
         case Crash => Crash)
      case Underflow => Underflow
      case Crash => Crash
    else
      match DecodeRaw(t, s, full)
      case Parsed(u, rest) => RawInRange(t, s, full); Parsed(OfRaw(t, u), rest)
      case Underflow => Underflow
      case Crash => Crash
  }

  lemma {:induction false} ReadVarInRange(s: seq<Byte>, room: nat)
    ensures var r := ReadVar(s, room); r.Value? ==> r.value < Pow2(room) && r.used <= |s|
  {
    if room > 0 && s != [] {
      var m := if room < 7 then 0 else room - 7;
      if s[0] >= 128 {
        ReadVarInRange(s[1..], m);
      }
      if room >= 7 {
        SevenBits(room);
      }
    }
  }

  lemma RawInRange(t: Type, s: seq<Byte>, full: bool)
    requires Scalar(t) && !t.Str?
    ensures var r := DecodeRaw(t, s, full); r.Parsed? ==> r.value < Pow2(BitsOf(t))
  {
    var n := BitsOf(t);
    if Fixed(t) {
      PowersAgree();
      var r := ReadBytes(s, n / 8, full);
      if r.Parsed? {
        LowFirstInverse(0, 0, Reverse(r.value));
      }
    } else {
      ReadVarInRange(s, n);
    }
  }

  lemma PowersAgree()
    ensures Pow256(1) == Pow2(8) == 256 && Pow256(2) == Pow2(16)
  {
    SevenBits(8);
    SevenBits(16);
    SevenBits(9);
  }

  /** operator>>, for every type. */
  function Decode(t: Type, s: seq<Byte>, full: bool): (r: Parse<Value>)
    decreases t, 0
  {
    match t
    case Box(k, e) => DecodeBox(k, e, s, full)
    case Tuple(ts) =>
      (match DecodeMembers(ts, s, full)
       case Parsed(vs, rest) => Parsed(Items(vs), rest)
       case Underflow => Underflow
       case Crash => Crash)
    case _ => DecodeScalar(t, s, full)
  }

  function DecodeMembers(ts: Types, s: seq<Byte>, full: bool): (r: Parse<seq<Value>>)
    decreases ts, 0
  {
    match ts
    case Nil => Parsed([], s)
    case Cons(t, rest) =>
      match Decode(t, s, full)
      case Parsed(v, s') =>
        (match DecodeMembers(rest, s', full)
         case Parsed(vs, s'') => Parsed([v] + vs, s'')
         case Underflow => Underflow
         case Crash => Crash)
      case Underflow => Underflow
      case Crash => Crash
  }

  function DecodeBox(k: Kind, e: Type, s: seq<Byte>, full: bool): (r: Parse<Value>) {
    match DecodeVar(s, 64)
    case Parsed(n, rest) =>
      (match DecodeItems(e, n, rest, full)
       case Parsed(vs, rest') => Parsed(Items(Collect(k, vs)), rest')
       case Underflow => Underflow
       case Crash => Crash)
    case Underflow => Underflow
    case Crash => Crash
  }

  /** The reading loop of every container: each element is read with read(), which does nothing for a variable
      that is itself a container or a tuple, so that it stays as it was made. */
  function DecodeItems(e: Type, n: nat, s: seq<Byte>, full: bool): (r: Parse<seq<Value>>)
    decreases n
  {
    if n == 0 then Parsed([], s)
    else
      match DecodeItem(e, s, full)
      case Parsed(v, s') =>
        (match DecodeItems(e, n - 1, s', full)
         case Parsed(vs, s'') => Parsed([v] + vs, s'')
         case Underflow => Underflow
         case Crash => Crash)
      case Underflow => Underflow
      case Crash => Crash
  }

  function DecodeItem(e: Type, s: seq<Byte>, full: bool): (r: Parse<Value>) {
    if Scalar(e) then DecodeScalar(e, s, full) else Parsed(Blank(e), s)
  }

  /** A new variable of the type. */
  function Blank(t: Type): (v: Value) {
    match t
    case Str => Text([])
    case Box(_, _) => Items([])
    case Tuple(ts) => Items(Blanks(ts))
    case _ => Num(0)
  }

  function Blanks(ts: Types): (vs: seq<Value>) {
    match ts
    case Nil => []
    case Cons(t, rest) => [Blank(t)] + Blanks(rest)
  }

  /** The elements put into a container one by one. */
  function Collect(k: Kind, vs: seq<Value>): (r: seq<Value>) {
    if !IsSet(k) then vs else Dedup(vs)
  }

  function Dedup(vs: seq<Value>): (r: seq<Value>) {
    if vs == [] then []
    else
      var r := Dedup(vs[..|vs| - 1]);
      if vs[|vs| - 1] in r then r else r + [vs[|vs| - 1]]
  }
}
