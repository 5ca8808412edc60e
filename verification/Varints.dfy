/**
  The integer encodings of acid/common/byte_array.cpp:81-127 and 213-250 and
  acid/common/byte_array.h:47-54: base-128 varints, zigzag, and fixed-width integers in a chosen byte order.
 */
module Varints {
  import opened Chunks
  import opened BitOps

  // ---- base-128 varints ----

  /** Seven bits a byte, lowest first; the top bit says that more follow. */
  function VarBytes(v: nat): (r: seq<Byte>)
    ensures |r| > 0
  {
    if v >= 128 then [v % 128 + 128] + VarBytes(v / 128) else [v]
  }

  /** The byte (value & 0x7F) | 0x80 of the writing loop. */
  lemma MoreFollows(v: nat)
    ensures Or(And(v, 0x7F), 0x80) == v % 128 + 128
  {
    assert Pow2(7) == 128 by { SevenBits(7); }
    AndLow(v, 7);
    OrApart(v % 128, 1, 7);
  }

  datatype VarRead = Value(value: nat, used: nat) | Short

  /**
    The reading loop with `room` bits of the result still to be filled: it stops at a byte below 128, or when
    the result is full, and cuts off the bits that a shift moves out of the result.
   */
  function ReadVar(s: seq<Byte>, room: nat): (r: VarRead) {
    if room == 0 then Value(0, 0)
    else if s == [] then Short
    else
      var digit := Digit(s[0] % 128, room);
      if s[0] < 128 then Value(digit, 1)
      else
        match ReadVar(s[1..], if room < 7 then 0 else room - 7)
        case Short => Short
        case Value(v, n) => Value(digit + 128 * v, n + 1)
  }

  /** Seven bits, cut to those that the result has room for. */
  function Digit(d: nat, room: nat): (r: nat) {
    if room < 7 then d % Pow2(room) else d
  }

  lemma DigitBelow(d: nat, room: nat)
    requires d < 128
    ensures Digit(d, room) <= d < 128
    ensures d < Pow2(room) ==> Digit(d, room) == d
  {
    if room < 7 {
      DivMod(d, Pow2(room));
      if d < Pow2(room) {
        DivUnique(d, Pow2(room), 0, d);
      } else {
        assert d % Pow2(room) < Pow2(room);
      }
    }
  }

  lemma SevenBits(room: nat)
    requires room >= 7
    ensures Pow2(room) == 128 * Pow2(room - 7)
  {
    assert Pow2(room) == 2 * Pow2(room - 1) == 4 * Pow2(room - 2) == 8 * Pow2(room - 3);
    assert Pow2(room - 3) == 2 * Pow2(room - 4) == 4 * Pow2(room - 5) == 8 * Pow2(room - 6);
  }

  lemma {:induction false} FewBits(room: nat)
    requires room <= 7
    ensures Pow2(room) <= 128
    decreases 7 - room
  {
    if room < 7 {
      FewBits(room + 1);
    }
  }

  /** Reading what was written gives the value and stops at its last byte, whatever follows. */
  lemma {:induction false} VarRoundTrip(v: nat, room: nat, rest: seq<Byte>)
    requires 0 < room && v < Pow2(room)
    ensures ReadVar(VarBytes(v) + rest, room) == Value(v, |VarBytes(v)|)
  {
    if v < 128 {
      DigitBelow(v, room);
      assert ([v] + rest)[0] == v;
    } else {
      HighBits(v, room);
      VarRoundTrip(v / 128, room - 7, rest);
      assert [v % 128 + 128] + VarBytes(v / 128) + rest == [v % 128 + 128] + (VarBytes(v / 128) + rest);
      OneByteMore(v % 128, VarBytes(v / 128) + rest, room, v / 128, |VarBytes(v / 128)|);
    }
  }

  lemma OneByteMore(d: nat, s: seq<Byte>, room: nat, v: nat, n: nat)
    requires d < 128 && room > 7 && ReadVar(s, room - 7) == Value(v, n)
    ensures ReadVar([d + 128] + s, room) == Value(d + 128 * v, n + 1)
  {
    assert ([d + 128] + s)[0] == d + 128 && ([d + 128] + s)[1..] == s;
    assert (d + 128) % 128 == d;
  }

  lemma HighBits(v: nat, room: nat)
    requires 128 <= v < Pow2(room)
    ensures room > 7 && v / 128 < Pow2(room - 7)
  {
    if room <= 7 {
      FewBits(room);
    } else {
      SevenBits(room);
    }
  }

  function Pow128(n: nat): (r: nat)
    ensures r > 0
  {
    if n == 0 then 1 else 128 * Pow128(n - 1)
  }

  /** Byte `k` of a varint holds the seven bits that count 128^k, and the top bit in all bytes but the last. */
  lemma {:induction false} VarByteAt(v: nat, k: nat)
    requires k < |VarBytes(v)|
    ensures VarBytes(v)[k] == (v / Pow128(k)) % 128 + if k < |VarBytes(v)| - 1 then 128 else 0
  {
    if k == 0 {
      assert v / 1 == v;
    } else {
      VarByteAt(v / 128, k - 1);
      DivDiv(v, 128, Pow128(k - 1));
    }
  }

  lemma {:induction false} VarLength(v: nat, n: nat)
    requires n > 0
    ensures |VarBytes(v)| <= n <==> v < Pow128(n)
  {
    if n == 1 {
      assert Pow128(1) == 128;
    } else if v >= 128 {
      VarLength(v / 128, n - 1);
      assert v == 128 * (v / 128) + v % 128;
    } else {
      assert Pow128(n) == 128 * Pow128(n - 1);
    }
  }

  lemma {:induction false} ReadVarBelow(s: seq<Byte>, room: nat)
    requires ReadVar(s, room).Value?
    ensures var r := ReadVar(s, room);
      && r.value < Pow128(r.used) && r.used <= |s| && 7 * r.used < room + 7
      && (r.used == 0 <==> room == 0)
  {
    if room > 0 {
      DigitBelow(s[0] % 128, room);
      if s[0] < 128 {
        assert Pow128(1) == 128 * Pow128(0);
      } else {
        ReadVarBelow(s[1..], if room < 7 then 0 else room - 7);
      }
    }
  }

  /** No byte string that the reader turns into `v` is shorter than the one the writer makes. */
  lemma VarIsMinimal(s: seq<Byte>, room: nat)
    requires room > 0 && ReadVar(s, room).Value?
    ensures |VarBytes(ReadVar(s, room).value)| <= ReadVar(s, room).used <= (room + 6) / 7
  {
    ReadVarBelow(s, room);
    VarLength(ReadVar(s, room).value, ReadVar(s, room).used);
  }

  lemma VarAtMost(v: nat, room: nat)
    requires room > 0 && v < Pow2(room)
    ensures |VarBytes(v)| <= (room + 6) / 7
  {
    VarRoundTrip(v, room, []);
    ReadVarBelow(VarBytes(v) + [], room);
  }

  /** At most five bytes for 32 bits and ten for 64, the sizes of the writers' scratch arrays. */
  lemma ScratchSuffices(v: nat)
    ensures v < Pow2(32) ==> |VarBytes(v)| <= 5
    ensures v < Pow2(64) ==> |VarBytes(v)| <= 10
  {
    if v < Pow2(32) {
      VarAtMost(v, 32);
    }
    if v < Pow2(64) {
      VarAtMost(v, 64);
    }
  }

  /** No encoding is a prefix of another. */
  lemma VarPrefixFree(a: nat, b: nat, room: nat, t: seq<Byte>)
    requires room > 0 && a < Pow2(room) && b < Pow2(room)
    requires VarBytes(b) == VarBytes(a) + t
    ensures a == b && t == []
  {
    VarRoundTrip(a, room, t);
    VarRoundTrip(b, room, []);
    assert VarBytes(b) + [] == VarBytes(b);
  }

  // ---- zigzag ----

  /** (value << 1) ^ (value >> (bits - 1)) */
  function EncodeZigZag(n: int, bits: nat): (r: nat)
    requires bits > 0 && Fits(n, bits)
  {
    SignShift(n, bits);
    Xor(ShiftLeft(Unsigned(n, bits), 1, bits), Unsigned(ShiftRight(n, bits - 1), bits))
  }

  /** (value >> 1) ^ (-(value & 1)) */
  function DecodeZigZag(u: nat, bits: nat): (r: int)
    requires bits > 0 && u < Pow2(bits)
  {
    Signed(Xor(u / 2, Negated(And(u, 1), bits)), bits)
  }

  /** The arithmetic shift by the width less one spreads the sign. */
  lemma SignShift(n: int, bits: nat)
    requires bits > 0 && Fits(n, bits)
    ensures ShiftRight(n, bits - 1) == if n < 0 then -1 else 0
  {
    var p := Pow2(bits - 1);
    if n < 0 {
      assert n == -1 * p + (n + p) && 0 <= n + p < p;
      DivUnique(n, p, -1, n + p);
    } else {
      DivUnique(n, p, 0, n);
    }
  }

  /** The pattern of a number, doubled in its width. */
  lemma DoubledPattern(n: int, bits: nat)
    requires bits > 0 && Fits(n, bits)
    ensures ShiftLeft(Unsigned(n, bits), 1, bits) == if n >= 0 then 2 * n else 2 * n + Pow2(bits)
    ensures ShiftLeft(Unsigned(n, bits), 1, bits) < Pow2(bits)
  {
    var p := Pow2(bits);
    assert p == 2 * Pow2(bits - 1);
    DoubleInWidth(Unsigned(n, bits), p, if n < 0 then 1 else 0);
    assert Pow2(1) == 2;
  }

  lemma DoubleInWidth(u: nat, p: nat, carry: nat)
    requires carry <= 1 && carry * p <= 2 * u < carry * p + p
    ensures (u * 2) % p == 2 * u - carry * p
  {
    DivUnique(2 * u, p, carry, 2 * u - carry * p);
  }

  /** Zigzag sends n >= 0 to 2n and n < 0 to -2n-1. */
  lemma ZigZagMeaning(n: int, bits: nat)
    requires bits > 0 && Fits(n, bits)
    ensures EncodeZigZag(n, bits) == if n >= 0 then 2 * n else -2 * n - 1
    ensures EncodeZigZag(n, bits) < Pow2(bits)
  {
    SignShift(n, bits);
    DoubledPattern(n, bits);
    XorWithSign(ShiftLeft(Unsigned(n, bits), 1, bits), Unsigned(ShiftRight(n, bits - 1), bits), n, bits);
  }

  lemma XorWithSign(a: nat, b: nat, n: int, bits: nat)
    requires bits > 0 && Fits(n, bits)
    requires a == if n >= 0 then 2 * n else 2 * n + Pow2(bits)
    requires b == if n >= 0 then 0 else Pow2(bits) - 1
    ensures Xor(a, b) == if n >= 0 then 2 * n else -2 * n - 1
    ensures Xor(a, b) < Pow2(bits)
  {
    assert Pow2(bits) == 2 * Pow2(bits - 1);
    if n < 0 {
      XorOnes(a, bits);
    }
  }

  lemma ZagZigMeaning(u: nat, bits: nat)
    requires bits > 0 && u < Pow2(bits)
    ensures DecodeZigZag(u, bits) == if u % 2 == 0 then u / 2 else -(u / 2) - 1
    ensures Fits(DecodeZigZag(u, bits), bits)
  {
    var p := Pow2(bits);
    assert p == 2 * Pow2(bits - 1);
    LowBitSpread(u, bits);
    XorOnes(u / 2, bits);
  }

  lemma LowBitSpread(u: nat, bits: nat)
    requires bits > 0
    ensures Negated(And(u, 1), bits) == if u % 2 == 0 then 0 else Pow2(bits) - 1
  {
    var p := Pow2(bits);
    assert p == 2 * Pow2(bits - 1);
    assert And(u, 1) == u % 2 by {
      AndLow(u, 1);
      assert Pow2(1) == 2;
    }
    if u % 2 == 0 {
      DivUnique(0, p, 0, 0);
    } else {
      DivUnique(-1, p, -1, p - 1);
    }
  }

  /** It is a bijection between the signed and the unsigned integers of a width. */
  lemma ZigZagBijection(n: int, u: nat, bits: nat)
    requires bits > 0 && Fits(n, bits) && u < Pow2(bits)
    ensures EncodeZigZag(n, bits) < Pow2(bits) && DecodeZigZag(EncodeZigZag(n, bits), bits) == n
    ensures Fits(DecodeZigZag(u, bits), bits) && EncodeZigZag(DecodeZigZag(u, bits), bits) == u
  {
    ZigZagBack(n, bits);
    ZagZigMeaning(u, bits);
    ZigZagMeaning(DecodeZigZag(u, bits), bits);
  }

  lemma ZigZagBack(n: int, bits: nat)
    requires bits > 0 && Fits(n, bits)
    ensures EncodeZigZag(n, bits) < Pow2(bits) && DecodeZigZag(EncodeZigZag(n, bits), bits) == n
  {
    ZigZagMeaning(n, bits);
    var u := EncodeZigZag(n, bits);
    ZagZigMeaning(u, bits);
    if n >= 0 {
      DivUnique(u, 2, n, 0);
    } else {
      DivUnique(u, 2, -n - 1, 1);
    }
  }

  // ---- fixed-width integers ----

  /** The `n` bytes of a number, lowest first. */
  function LowFirst(v: nat, n: nat): (r: seq<Byte>)
    ensures |r| == n
  {
    if n == 0 then [] else [v % 256] + LowFirst(v / 256, n - 1)
  }

  function FromLowFirst(s: seq<Byte>): (r: nat) {
    if s == [] then 0 else s[0] + 256 * FromLowFirst(s[1..])
  }

  function Reverse(s: seq<Byte>): (r: seq<Byte>)
    ensures |r| == |s|
  {
    if s == [] then [] else Reverse(s[1..]) + [s[0]]
  }

  function Pow256(n: nat): (r: nat)
    ensures r > 0
  {
    if n == 0 then 1 else 256 * Pow256(n - 1)
  }

  lemma {:induction false} LowFirstInverse(v: nat, n: nat, s: seq<Byte>)
    ensures v < Pow256(n) ==> FromLowFirst(LowFirst(v, n)) == v
    ensures FromLowFirst(s) < Pow256(|s|) && LowFirst(FromLowFirst(s), |s|) == s
  {
    if n > 0 {
      LowFirstInverse(v / 256, n - 1, []);
      assert v == 256 * (v / 256) + v % 256;
    }
    if s != [] {
      LowFirstInverse(0, 0, s[1..]);
      var t := FromLowFirst(s[1..]);
      DivUnique(s[0] + 256 * t, 256, t, s[0]);
    }
  }

  lemma {:induction false} ReverseAppend(s: seq<Byte>, b: Byte)
    ensures Reverse(s + [b]) == [b] + Reverse(s)
  {
    if s != [] {
      ReverseAppend(s[1..], b);
      assert (s + [b])[1..] == s[1..] + [b];
    }
  }

  lemma {:induction false} ReverseTwice(s: seq<Byte>)
    ensures Reverse(Reverse(s)) == s
  {
    if s != [] {
      ReverseTwice(s[1..]);
      ReverseAppend(Reverse(s[1..]), s[0]);
    }
  }

  datatype Endian = Little | Big

  /** The bytes of an integer variable in the memory of a host, and the integer they hold there. */
  function InMemory(v: nat, n: nat, host: Endian): (r: seq<Byte>)
    ensures |r| == n
  {
    if host == Little then LowFirst(v, n) else Reverse(LowFirst(v, n))
  }

  function FromMemory(s: seq<Byte>, host: Endian): (r: nat) {
    if host == Little then FromLowFirst(s) else FromLowFirst(Reverse(s))
  }

  lemma DivDiv(v: nat, a: nat, b: nat)
    requires a > 0 && b > 0
    ensures a * b > 0 && v / (a * b) == (v / a) / b
  {
    var q, r := v / a, v % a;
    var q2, r2 := q / b, q % b;
    DivMod(v, a);
    DivMod(q, b);
    Regroup(a, b, q2, r2, r);
    DivUnique(v, a * b, q2, a * r2 + r);
  }

  lemma Regroup(a: nat, b: nat, q: nat, s: nat, r: nat)
    requires r < a && s < b
    ensures (q * b + s) * a + r == q * (a * b) + (a * s + r)
    ensures a * s + r < a * b
  {
    Apart(b, s, a);
  }

  lemma {:induction false} LowFirstAt(v: nat, n: nat, k: nat)
    requires k < n
    ensures LowFirst(v, n)[k] == (v / Pow256(k)) % 256
  {
    if k > 0 {
      LowFirstAt(v / 256, n - 1, k - 1);
      DivDiv(v, 256, Pow256(k - 1));
    }
  }

  lemma {:induction false} ReverseAt(s: seq<Byte>, k: nat)
    requires k < |s|
    ensures Reverse(s)[k] == s[|s| - 1 - k]
  {
    if k < |s| - 1 {
      ReverseAt(s[1..], k);
    }
  }

  /** On the wire, and in the memory of a host with the high byte first, byte `k` of `n` is the one that counts
      256^(n-1-k); with the low byte first it is the one that counts 256^k. */
  lemma ByteOrder(v: nat, n: nat, k: nat)
    requires k < n
    ensures InMemory(v, n, Big)[k] == (v / Pow256(n - 1 - k)) % 256
    ensures InMemory(v, n, Little)[k] == (v / Pow256(k)) % 256
  {
    ReverseAt(LowFirst(v, n), k);
    LowFirstAt(v, n, k);
    LowFirstAt(v, n, n - 1 - k);
  }

  /** byte_swap: the number whose bytes are those of `v` in the opposite order. */
  function ByteSwap(v: nat, n: nat): (r: nat) {
    FromLowFirst(Reverse(LowFirst(v, n)))
  }

  /** The bytes that write_fix_int puts into the array on a host, and what the reader makes of them. */
  function FixBytes(v: nat, n: nat, host: Endian, order: Endian): (r: seq<Byte>)
    ensures |r| == n
  {
    InMemory(if order != host then ByteSwap(v, n) else v, n, host)
  }

  function ReadFix(s: seq<Byte>, host: Endian, order: Endian): (r: nat) {
    var v := FromMemory(s, host);
    if order == host then v else ByteSwap(v, |s|)
  }

  /** The bytes written depend on the array's byte order only, not on the host's. */
  lemma FixBytesIgnoreHost(v: nat, n: nat, host: Endian, order: Endian)
    ensures FixBytes(v, n, host, order) == InMemory(v, n, order)
  {
    if order != host {
      var r := Reverse(LowFirst(v, n));
      LowFirstInverse(0, 0, r);
      ReverseTwice(LowFirst(v, n));
    }
  }

  /** What one host writes any host reads back. */
  lemma FixRoundTrip(v: nat, n: nat, writer: Endian, reader: Endian, order: Endian)
    requires v < Pow256(n)
    ensures ReadFix(FixBytes(v, n, writer, order), reader, order) == v
  {
    FixBytesIgnoreHost(v, n, writer, order);
    FixBytesIgnoreHost(v, n, reader, order);
    var s := InMemory(v, n, order);
    var l := LowFirst(v, n);
    LowFirstInverse(v, n, l);
    ReverseTwice(l);
    if reader != order {
      var m := FromMemory(s, reader);
      LowFirstInverse(0, 0, s);
      LowFirstInverse(0, 0, Reverse(s));
      assert m == FromLowFirst(Reverse(l));
      LowFirstInverse(0, 0, Reverse(l));
      assert LowFirst(m, n) == Reverse(l);
    }
  }

  /** A reader on any host makes the same of the bytes. */
  lemma ReadFixIgnoresHost(s: seq<Byte>, host: Endian, order: Endian)
    ensures ReadFix(s, host, order) == FromMemory(s, order)
  {
    LowFirstInverse(0, 0, s);
    LowFirstInverse(0, 0, Reverse(s));
    ReverseTwice(s);
  }
}
