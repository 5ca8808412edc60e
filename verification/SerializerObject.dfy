/** acid/rpc/serializer.h: the serializer as an object on a ByteArray. */
module SerializerObjects {
  import opened Chunks
  import opened BitOps
  import opened Varints
  import opened Serializers
  import opened ByteArrays
  import opened IntegerStreams

  /** The unread bytes of an array, and whether it is filled to its capacity. */
  ghost function Unread(a: ByteArray): (s: seq<Byte>)
    requires a.Valid()
    reads a, a.nodes, a.arrays
  {
    a.Contents()[a.m_position..]
  }

  ghost predicate Full(a: ByteArray)
    requires a.Valid()
    reads a, a.nodes, a.arrays
  {
    a.m_size == a.m_capacity
  }

  datatype Outcome<T> = Done(value: T) | Failed | Broken {
    /** The same failure, of another type. */
    function Lost<U>(): Outcome<U>
      requires !Done?
    {
      if Failed? then Failed else Broken
    }
  }

  /** A reading operation has done to the array what a parse of its unread bytes says. */
  ghost predicate Follows<T>(r: Outcome<T>, p: Parse<T>, unread: seq<Byte>) {
    match p
    case Parsed(v, rest) => r == Done(v) && unread == rest
    case Underflow => r == Failed
    case Crash => r == Broken
  }

  /** The bytes `b` have been written at the position. */
  twostate predicate Wrote(a: ByteArray, b: seq<Byte>)
    requires old(a.Valid()) && a.Valid()
    reads a, a.nodes, a.arrays
  {
    && a.Contents() == Overwrite(old(a.Contents()), old(a.m_position), b)
    && a.m_position == old(a.m_position) + |b|
    && fresh(a.Repr - old(a.Repr))
  }

  lemma OverwriteTwice(s: seq<Byte>, p: nat, x: seq<Byte>, y: seq<Byte>)
    requires p <= |s|
    ensures |Overwrite(s, p, x)| >= p + |x|
    ensures Overwrite(Overwrite(s, p, x), p + |x|, y) == Overwrite(s, p, x + y)
  {
  }

  lemma OverwriteNothing(s: seq<Byte>, p: nat)
    requires p <= |s|
    ensures Overwrite(s, p, []) == s
  {
  }

  /** What a size_t holds. */
  predicate Countable(n: nat) {
    n < Pow2(64)
  }

  class Serializer {
    const m_byte_array: ByteArray
    const host: Endian

    ghost predicate Valid()
      reads this, m_byte_array, m_byte_array.nodes, m_byte_array.arrays
    {
      m_byte_array.Valid()
    }

    constructor (a: ByteArray, host: Endian)
      ensures m_byte_array == a && this.host == host
    {
      m_byte_array := a;
      this.host := host;
    }

    /** write(T) for the scalar types */
    method WriteScalar(t: Type, v: Value)
      requires Valid() && Scalar(t) && Typed(t, v)
      modifies m_byte_array.Repr
      ensures Valid() && Wrote(m_byte_array, EncodeScalar(t, v))
    {
      var a := m_byte_array;
      if t.Str? {
        ghost var s, p := a.Contents(), a.m_position;
        WriteVarUint(a, |v.s|, 64);
        a.Write(v.s);
        OverwriteTwice(s, p, VarBytes(|v.s|), v.s);
      } else {
        var u := ToRaw(t, v);
        RawSmall(t, v);
        if Fixed(t) {
          FixBytesIgnoreHost(u, BitsOf(t) / 8, host, Big);
          a.Write(FixBytes(u, BitsOf(t) / 8, host, Big));
        } else {
          WriteVarUint(a, u, BitsOf(t));
        }
      }
    }

    /** operator<< */
    method Write(t: Type, v: Value)
      requires Valid() && Typed(t, v)
      modifies m_byte_array.Repr
      ensures Valid() && Wrote(m_byte_array, Encode(t, v))
      decreases t, 0
    {
      match t {
        case Box(k, e) =>
          WriteBox(k, e, v.elements);
        case Tuple(ts) =>
          WriteMembers(ts, v.elements);
        case _ =>
          WriteScalar(t, v);
      }
    }

    /** The size of a container and its elements. */
    method WriteBox(k: Kind, e: Type, vs: seq<Value>)
      requires Valid() && Countable(|vs|) && forall x :: x in vs ==> Typed(e, x)
      modifies m_byte_array.Repr
      ensures Valid() && Wrote(m_byte_array, VarBytes(|vs|) + EncodeItems(k, e, vs))
      decreases e, 4
    {
      ghost var size, items := VarBytes(|vs|), EncodeItems(k, e, vs);
      OverwriteTwice(m_byte_array.Contents(), m_byte_array.m_position, size, items);
      WriteSize(|vs|);
      WriteItems(k, e, vs);
    }

    /** The number of elements of a container. */
    method WriteSize(n: nat)
      requires Valid() && Countable(n)
      modifies m_byte_array.Repr
      ensures Valid() && Wrote(m_byte_array, VarBytes(n))
    {
      WriteVarUint(m_byte_array, n, 64);
    }

    /** The fold over the members of a tuple. */
    method WriteMembers(ts: Types, vs: seq<Value>)
      requires Valid() && TypedMembers(ts, vs)
      modifies m_byte_array.Repr
      ensures Valid() && Wrote(m_byte_array, EncodeMembers(ts, vs))
      decreases ts, 0
    {
      match ts {
        case Nil =>
        case Cons(t, rest) =>
          ghost var s, p := m_byte_array.Contents(), m_byte_array.m_position;
          Write(t, vs[0]);
          WriteMembers(rest, vs[1..]);
          OverwriteTwice(s, p, Encode(t, vs[0]), EncodeMembers(rest, vs[1..]));
      }
    }

    method WriteItem(k: Kind, e: Type, v: Value)
      requires Valid() && Typed(e, v)
      modifies m_byte_array.Repr
      ensures Valid() && Wrote(m_byte_array, EncodeItem(k, e, v))
      decreases e, 1
    {
      if Scalar(e) || k == List || k == Vector || k == OrderedSet {
        Write(e, v);
      }
    }

    /** The loop over the elements of a container. */
    method WriteItems(k: Kind, e: Type, vs: seq<Value>)
      requires Valid() && forall x :: x in vs ==> Typed(e, x)
      modifies m_byte_array.Repr
      ensures Valid() && Wrote(m_byte_array, EncodeItems(k, e, vs))
      decreases e, 3
    {
      ghost var b := EncodeItems(k, e, vs);
      ghost var end, done := m_byte_array.m_position + |b|, Overwrite(m_byte_array.Contents(), m_byte_array.m_position, b);
      var i := 0;
      assert vs[0..] == vs;
      while i < |vs|
        invariant 0 <= i <= |vs| && Valid() && fresh(m_byte_array.Repr - old(m_byte_array.Repr))
        invariant Lacks(EncodeItems(k, e, vs[i..]), end, done)
      {
        WriteNext(k, e, vs, i, end, done);
        i := i + 1;
      }
      OverwriteNothing(m_byte_array.Contents(), m_byte_array.m_position);
    }

    /** With `b` written at the position the contents and the position will be these. */
    ghost predicate Lacks(b: seq<Byte>, end: nat, done: seq<Byte>)
      requires Valid()
      reads this, m_byte_array, m_byte_array.nodes, m_byte_array.arrays
    {
      && Overwrite(m_byte_array.Contents(), m_byte_array.m_position, b) == done
      && m_byte_array.m_position + |b| == end
    }

    /** One turn of that loop. */
    method WriteNext(k: Kind, e: Type, vs: seq<Value>, i: nat, ghost end: nat, ghost done: seq<Byte>)
      requires Valid() && i < |vs| && forall x :: x in vs ==> Typed(e, x)
      requires Lacks(EncodeItems(k, e, vs[i..]), end, done)
      modifies m_byte_array.Repr
      ensures Valid() && fresh(m_byte_array.Repr - old(m_byte_array.Repr))
      ensures Lacks(EncodeItems(k, e, vs[i + 1..]), end, done)
      decreases e, 2
    {
      assert vs[i..][1..] == vs[i + 1..];
      OverwriteTwice(m_byte_array.Contents(), m_byte_array.m_position, EncodeItem(k, e, vs[i]),
                     EncodeItems(k, e, vs[i + 1..]));
      WriteItem(k, e, vs[i]);
    }

    // Every reading method leaves the contents alone, and takes from the unread bytes what the parse takes: with the
    // repaired read() from any array, and as written from an array of one block.

    method ReadNat(bits: nat) returns (r: Outcome<nat>)
      requires Valid() && m_byte_array.Sound() && IntegerStreams.Width(bits)
      modifies m_byte_array`m_position, m_byte_array`m_cur
      ensures Valid() && SameArray(m_byte_array)
      ensures Follows(r, DecodeVar(old(Unread(m_byte_array)), bits), Unread(m_byte_array))
      ensures r.Done? ==> r.value < Pow2(bits)
    {
      ghost var s := Unread(m_byte_array);
      ReadVarInRange(s, bits);
      var i := ReadVarUint(m_byte_array, bits);
      r := if i.NotEnough? then Failed else Done(i.value);
    }

    method ReadSome(n: nat) returns (r: Outcome<seq<Byte>>)
      requires Valid() && m_byte_array.Sound()
      modifies m_byte_array`m_position, m_byte_array`m_cur
      ensures Valid() && SameArray(m_byte_array)
      ensures Follows(r, ReadBytes(old(Unread(m_byte_array)), n, Full(m_byte_array)), Unread(m_byte_array))
    {
      ghost var c, p := m_byte_array.Contents(), m_byte_array.m_position;
      var g := m_byte_array.Read(n);
      if p + n <= |c| {
        assert c[p..][..n] == c[p..p + n] && c[p..][n..] == c[p + n..];
      }
      r := match g case Got(b) => Done(b) case OutOfRange => Failed case Undefined => Broken;
    }

    /** read(T&) for the scalar types */
    method ReadScalar(t: Type) returns (r: Outcome<Value>)
      requires Valid() && m_byte_array.Sound() && Scalar(t)
      modifies m_byte_array`m_position, m_byte_array`m_cur
      ensures Valid() && SameArray(m_byte_array)
      ensures Follows(r, DecodeScalar(t, old(Unread(m_byte_array)), Full(m_byte_array)), Unread(m_byte_array))
    {
      if t.Str? {
        var len := ReadNat(64);
        if !len.Done? {
          return Failed;
        }
        var b := ReadSome(len.value);
        r := match b case Done(s) => Done(Text(s)) case Failed => Failed case Broken => Broken;
      } else {
        RawInRange(t, Unread(m_byte_array), Full(m_byte_array));
        if Fixed(t) {
          var b := ReadSome(BitsOf(t) / 8);
          match b {
            case Done(s) =>
              ReadFixIgnoresHost(s, host, Big);
              r := Done(OfRaw(t, ReadFix(s, host, Big)));
            case Failed => r := Failed;
            case Broken => r := Broken;
          }
        } else {
          var u := ReadNat(BitsOf(t));
          r := match u case Done(u) => Done(OfRaw(t, u)) case Failed => Failed case Broken => Broken;
        }
      }
    }

    /** operator>> */
    method Read(t: Type) returns (r: Outcome<Value>)
      requires Valid() && m_byte_array.Sound()
      modifies m_byte_array`m_position, m_byte_array`m_cur
      ensures Valid() && SameArray(m_byte_array)
      ensures Follows(r, Decode(t, old(Unread(m_byte_array)), Full(m_byte_array)), Unread(m_byte_array))
      decreases t, 0
    {
      if t.Box? {
        r := ReadBox(t.kind, t.element);
      } else if t.Tuple? {
        var vs := ReadMembers(t.members);
        r := match vs case Done(c) => Done(Items(c)) case Failed => Failed case Broken => Broken;
      } else {
        r := ReadScalar(t);
      }
    }

    /** The number of elements of a container. */
    method ReadSize() returns (r: Outcome<nat>)
      requires Valid() && m_byte_array.Sound()
      modifies m_byte_array`m_position, m_byte_array`m_cur
      ensures Valid() && SameArray(m_byte_array)
      ensures Follows(r, DecodeVar(old(Unread(m_byte_array)), 64), Unread(m_byte_array))
      ensures r.Done? || r.Failed?
    {
      r := ReadNat(64);
    }

    method ReadBox(k: Kind, e: Type) returns (r: Outcome<Value>)
      requires Valid() && m_byte_array.Sound()
      modifies m_byte_array`m_position, m_byte_array`m_cur
      ensures Valid() && SameArray(m_byte_array)
      ensures Follows(r, DecodeBox(k, e, old(Unread(m_byte_array)), Full(m_byte_array)), Unread(m_byte_array))
    {
      ghost var s, full := Unread(m_byte_array), Full(m_byte_array);
      var size := ReadSize();
      if !size.Done? {
        return Failed;
      }
      BoxFollows(k, e, s, full);
      var vs := ReadItems(k, e, size.value);
      r := match vs case Done(c) => Done(Items(c)) case Failed => Failed case Broken => Broken;
    }

    method ReadMembers(ts: Types) returns (r: Outcome<seq<Value>>)
      requires Valid() && m_byte_array.Sound()
      modifies m_byte_array`m_position, m_byte_array`m_cur
      ensures Valid() && SameArray(m_byte_array)
      ensures Follows(r, DecodeMembers(ts, old(Unread(m_byte_array)), Full(m_byte_array)), Unread(m_byte_array))
      decreases ts, 0
    {
      match ts {
        case Nil =>
          r := Done([]);
        case Cons(t, rest) =>
          var v := Read(t);
          if !v.Done? {
            return v.Lost();
          }
          var vs := ReadMembers(rest);
          r := match vs case Done(c) => Done([v.value] + c) case Failed => Failed case Broken => Broken;
      }
    }

    /** The reading loop of the containers: a new variable, read() into it, and on to the container. */
    method ReadItems(k: Kind, e: Type, n: nat) returns (r: Outcome<seq<Value>>)
      requires Valid() && m_byte_array.Sound()
      modifies m_byte_array`m_position, m_byte_array`m_cur
      ensures Valid() && SameArray(m_byte_array)
      ensures Follows(r, Collected(k, DecodeItems(e, n, old(Unread(m_byte_array)), Full(m_byte_array))),
                      Unread(m_byte_array))
    {
      ghost var s, full := Unread(m_byte_array), Full(m_byte_array);
      ghost var done: seq<Value> := [];
      var c, i: nat := [], 0;
      NothingBehind(DecodeItems(e, n, s, full));
      while i < n
        invariant Valid() && SameArray(m_byte_array)
        invariant Gathered(k, e, n, s, full, done, c, i, Unread(m_byte_array))
        decreases n - i
      {
        var next;
        next, c, done := ReadNext(k, e, n, s, full, done, c, i);
        if !next.Done? {
          return next.Lost();
        }
        i := i + 1;
      }
      AllGathered(k, e, n, s, full, done, c, Unread(m_byte_array));
      r := Done(c);
    }

    /** One turn of that loop. */
    method ReadNext(k: Kind, e: Type, ghost n: nat, ghost s: seq<Byte>, ghost full: bool,
                    ghost done: seq<Value>, c: seq<Value>, ghost i: nat)
      returns (r: Outcome<Value>, c': seq<Value>, ghost done': seq<Value>)
      requires Valid() && m_byte_array.Sound() && i < n && full == Full(m_byte_array)
      requires Gathered(k, e, n, s, full, done, c, i, Unread(m_byte_array))
      modifies m_byte_array`m_position, m_byte_array`m_cur
      ensures Valid() && SameArray(m_byte_array)
      ensures r.Done? ==> Gathered(k, e, n, s, full, done', c', i + 1, Unread(m_byte_array))
      ensures !r.Done? ==> Follows(r.Lost(), Collected(k, DecodeItems(e, n, s, full)), Unread(m_byte_array))
    {
      ghost var rest := Unread(m_byte_array);
      r := ReadItem(e);
      c', done' := c, done;
      if r.Done? {
        ItemFollows(k, e, n, s, full, done, c, i, rest, r.value, Unread(m_byte_array));
        done' := done + [r.value];
        if !(IsSet(k) && r.value in c) {
          c' := c + [r.value];
        }
      } else {
        ItemFails(k, e, n, s, full, done, c, i, rest);
      }
    }

    /** A new variable, and read() into it. */
    method ReadItem(e: Type) returns (r: Outcome<Value>)
      requires Valid() && m_byte_array.Sound()
      modifies m_byte_array`m_position, m_byte_array`m_cur
      ensures Valid() && SameArray(m_byte_array)
      ensures Follows(r, DecodeItem(e, old(Unread(m_byte_array)), Full(m_byte_array)), Unread(m_byte_array))
    {
      if Scalar(e) {
        r := ReadScalar(e);
      } else {
        r := Done(Blank(e));
      }
    }
  }

  /** `i` of `n` elements have been read and put into `c`, and `rest` is still unread. */
  ghost predicate Gathered(k: Kind, e: Type, n: nat, s: seq<Byte>, full: bool,
                           done: seq<Value>, c: seq<Value>, i: nat, rest: seq<Byte>)
  {
    && i <= n && c == Collect(k, done)
    && DecodeItems(e, n, s, full) == Behind(done, DecodeItems(e, n - i, rest, full))
  }

  lemma ItemFollows(k: Kind, e: Type, n: nat, s: seq<Byte>, full: bool,
                    done: seq<Value>, c: seq<Value>, i: nat, rest: seq<Byte>, v: Value, rest': seq<Byte>)
    requires Gathered(k, e, n, s, full, done, c, i, rest) && i < n
    requires DecodeItem(e, rest, full) == Parsed(v, rest')
    ensures Gathered(k, e, n, s, full, done + [v], if IsSet(k) && v in c then c else c + [v], i + 1, rest')
  {
    OneMoreBehind(done, v, DecodeItems(e, n - i - 1, rest', full));
    CollectMore(k, done, v);
  }

  lemma AllGathered(k: Kind, e: Type, n: nat, s: seq<Byte>, full: bool,
                    done: seq<Value>, c: seq<Value>, rest: seq<Byte>)
    requires Gathered(k, e, n, s, full, done, c, n, rest)
    ensures Collected(k, DecodeItems(e, n, s, full)) == Parsed(c, rest)
  {
    assert done + [] == done;
  }

  lemma ItemFails(k: Kind, e: Type, n: nat, s: seq<Byte>, full: bool,
                  done: seq<Value>, c: seq<Value>, i: nat, rest: seq<Byte>)
    requires Gathered(k, e, n, s, full, done, c, i, rest) && i < n
    ensures DecodeItem(e, rest, full).Underflow? ==> DecodeItems(e, n, s, full) == Underflow
    ensures DecodeItem(e, rest, full).Crash? ==> DecodeItems(e, n, s, full) == Crash
  {
  }

  lemma NothingBehind(p: Parse<seq<Value>>)
    ensures Behind([], p) == p
  {
    if p.Parsed? {
      assert [] + p.value == p.value;
    }
  }

  lemma OneMoreBehind(done: seq<Value>, v: Value, p: Parse<seq<Value>>)
    ensures Behind(done + [v], p) == Behind(done, Behind([v], p))
  {
    if p.Parsed? {
      assert (done + [v]) + p.value == done + ([v] + p.value);
    }
  }

  lemma CollectMore(k: Kind, done: seq<Value>, v: Value)
    ensures Collect(k, done + [v])
         == if IsSet(k) && v in Collect(k, done) then Collect(k, done) else Collect(k, done) + [v]
  {
    assert (done + [v])[..|done|] == done;
  }

  twostate predicate SameArray(a: ByteArray)
    requires old(a.Valid()) && a.Valid()
    reads a, a.nodes, a.arrays
  {
    a.Contents() == old(a.Contents()) && Full(a) == old(Full(a))
  }

  /** Elements read before, in front of those that a parse gives. */
  ghost function Behind(done: seq<Value>, p: Parse<seq<Value>>): Parse<seq<Value>> {
    match p
    case Parsed(vs, rest) => Parsed(done + vs, rest)
    case Underflow => Underflow
    case Crash => Crash
  }

  lemma BoxFollows(k: Kind, e: Type, s: seq<Byte>, full: bool)
    ensures var size := DecodeVar(s, 64); size.Parsed? ==>
      DecodeBox(k, e, s, full)
      == match Collected(k, DecodeItems(e, size.value, size.rest, full))
         case Parsed(c, rest) => Parsed(Items(c), rest)
         case Underflow => Underflow
         case Crash => Crash
  {
  }

  ghost function Collected(k: Kind, p: Parse<seq<Value>>): Parse<seq<Value>> {
    match p
    case Parsed(vs, rest) => Parsed(Collect(k, vs), rest)
    case Underflow => Underflow
    case Crash => Crash
  }

  lemma RawSmall(t: Type, v: Value)
    requires Scalar(t) && !t.Str? && Typed(t, v)
    ensures ToRaw(t, v) < Pow2(BitsOf(t))
  {
    if t.Bool? {
      PowersAgree();
    } else if t.Signed? && !Fixed(t) {
      ZigZagMeaning(v.n, BitsOf(t));
    } else if t.Signed? {
      assert Pow2(BitsOf(t)) == 2 * Pow2(BitsOf(t) - 1);
    }
  }
}
