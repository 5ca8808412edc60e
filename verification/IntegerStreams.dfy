/** The integer and string accessors of ByteArray (acid/common/byte_array.cpp:47-127 and 166-296,
    acid/common/byte_array.h:47-54), on top of its write and read. */
module IntegerStreams {
  import opened Chunks
  import opened BitOps
  import opened Varints
  import opened ByteArrays

  /** An integer read, the out_of_range exception, or undefined behaviour. */
  datatype IntResult = Int(value: nat) | NotEnough

  predicate Width(bits: nat) {
    bits == 32 || bits == 64
  }

  /** The loop of write_var_uint32 and write_var_uint64: the bytes are gathered in a scratch array of five or
      ten. */
  method VarScratch(value: nat, bits: nat) returns (bytes: seq<Byte>)
    requires Width(bits) && value < Pow2(bits)
    ensures bytes == VarBytes(value)
  {
    var tmp := new Byte[if bits == 32 then 5 else 10];
    var i: nat, v: nat := 0, value;
    ghost var n := |VarBytes(value)|;
    assert n <= tmp.Length by { ScratchSuffices(value); }
    while v >= 0x80
      invariant i + |VarBytes(v)| == n && tmp[..i] + VarBytes(v) == VarBytes(value)
      decreases v
    {
      VarStep(tmp[..i], v);
      ghost var done := tmp[..i];
      MoreFollows(v);
      tmp[i] := Or(And(v, 0x7F), 0x80);
      assert tmp[..i + 1] == done + [v % 128 + 128];
      i := i + 1;
      v := v / 128;
    }
    tmp[i] := v;
    assert tmp[..i + 1] == tmp[..i] + [v];
    bytes := tmp[..i + 1];
  }

  lemma VarStep(done: seq<Byte>, v: nat)
    requires v >= 128
    ensures done + VarBytes(v) == (done + [v % 128 + 128]) + VarBytes(v / 128)
    ensures |VarBytes(v)| == 1 + |VarBytes(v / 128)|
  {
    assert done + ([v % 128 + 128] + VarBytes(v / 128)) == (done + [v % 128 + 128]) + VarBytes(v / 128);
  }

  method WriteVarUint(a: ByteArray, value: nat, bits: nat)
    requires a.Valid() && Width(bits) && value < Pow2(bits)
    modifies a.Repr
    ensures a.Valid() && fresh(a.Repr - old(a.Repr))
    ensures a.Contents() == Overwrite(old(a.Contents()), old(a.m_position), VarBytes(value))
    ensures a.m_position == old(a.m_position) + |VarBytes(value)|
  {
    var bytes := VarScratch(value, bits);
    a.Write(bytes);
  }

  /** read_fix_uint8 */
  method ReadByte(a: ByteArray) returns (r: IntResult)
    requires a.Valid() && a.Sound()
    modifies a`m_position, a`m_cur
    ensures a.Valid() && a.Contents() == old(a.Contents())
    ensures if old(a.m_position) < |a.Contents()|
      then r == Int(a.Contents()[old(a.m_position)]) && a.m_position == old(a.m_position) + 1
      else r == NotEnough && a.m_position == old(a.m_position)
  {
    var g := a.Read(1);
    if g.OutOfRange? {
      return NotEnough;
    }
    r := Int(g.bytes[0]);
  }

  /** What the loop has still to do, put together with what it has done. */
  ghost function Merge(result: nat, scale: nat, used: nat, r: VarRead): VarRead {
    match r
    case Short => Short
    case Value(v, n) => Value(result + v * scale, used + n)
  }

  /** A state of the reading loop that began at `p` with the bytes `s`: whatever comes of the whole read is
      what has been gathered and what the rest gives. */
  ghost predicate Reading(s: seq<Byte>, p: nat, pos: nat, bits: nat, result: nat, i: nat) {
    && p <= pos <= |s| && result < Pow2(if i < bits then i else bits)
    && ReadVar(s[p..], bits) == Merge(result, Pow2(i), pos - p, ReadVar(s[pos..], if i < bits then bits - i else 0))
  }

  /**
    read_var_uint32 and read_var_uint64: a byte is read from the array at a time. If the bytes run out in the
    middle of a number, the exception leaves the position at the end.
   */
  method ReadVarUint(a: ByteArray, bits: nat) returns (r: IntResult)
    requires a.Valid() && a.Sound() && Width(bits)
    modifies a`m_position, a`m_cur
    ensures a.Valid() && a.Contents() == old(a.Contents())
    ensures match ReadVar(old(a.Contents())[old(a.m_position)..], bits)
      case Value(v, n) => r == Int(v) && v < Pow2(bits) && a.m_position == old(a.m_position) + n
      case Short => r == NotEnough && a.m_position == |a.Contents()|
  {
    ghost var s, p := a.Contents(), a.m_position;
    var result: nat, i: nat := 0, 0;
    MergeNothing(ReadVar(s[p..], bits));
    while i < bits
      invariant a.Valid() && a.Contents() == s && Reading(s, p, a.m_position, bits, result, i)
      decreases bits - i
    {
      var ok, last;
      ok, last, result := ReadDigit(a, result, i, bits, s, p);
      if !ok {
        return NotEnough;
      }
      if last {
        break;
      }
      i := i + 7;
    }
    r := Int(result);
  }

  lemma MergeNothing(r: VarRead)
    ensures Merge(0, Pow2(0), 0, r) == r
  {
  }

  /** One turn of that loop. */
  method ReadDigit(a: ByteArray, result: nat, i: nat, bits: nat, ghost s: seq<Byte>, ghost p: nat)
    returns (ok: bool, last: bool, result': nat)
    requires a.Valid() && a.Sound() && i < bits && a.Contents() == s && Reading(s, p, a.m_position, bits, result, i)
    modifies a`m_position, a`m_cur
    ensures a.Valid() && a.Contents() == s && p <= a.m_position <= |s|
    ensures !ok ==> ReadVar(s[p..], bits) == Short && a.m_position == |s|
    ensures ok && last ==> ReadVar(s[p..], bits) == Value(result', a.m_position - p) && result' < Pow2(bits)
    ensures ok && !last ==> Reading(s, p, a.m_position, bits, result', i + 7)
  {
    DigitStep(s, p, a.m_position, bits, result, i);
    var tmp := ReadByte(a);
    if tmp.NotEnough? {
      return false, true, result;
    }
    result' := Or(result, ShiftLeft(And(tmp.value, 0x7F), i, bits));
    ok, last := true, tmp.value < 0x80;
  }

  /** What the digit at the position does to the result. */
  lemma DigitStep(s: seq<Byte>, p: nat, pos: nat, bits: nat, result: nat, i: nat)
    requires i < bits && Reading(s, p, pos, bits, result, i)
    ensures pos == |s| ==> ReadVar(s[p..], bits) == Short
    ensures pos < |s| ==>
      var result' := Or(result, ShiftLeft(And(s[pos], 0x7F), i, bits));
      if s[pos] < 0x80 then ReadVar(s[p..], bits) == Value(result', pos + 1 - p) && result' < Pow2(bits)
      else Reading(s, p, pos + 1, bits, result', i + 7)
  {
    if pos < |s| {
      var rest := s[pos..];
      assert s[pos + 1..] == rest[1..];
      ShiftIn(result, s[pos], i, bits);
      MergeStep(result, i, pos - p, rest, bits);
      WithinWidth(i, bits);
    }
  }

  lemma {:induction false} WithinWidth(i: nat, bits: nat)
    ensures Pow2(if i + 7 < bits then i + 7 else bits) <= Pow2(bits)
    decreases bits
  {
    if i + 7 < bits {
      WithinWidth(i, bits - 1);
    }
  }

  /** The low seven bits of a byte, shifted to bit `i` of the result: they keep clear of the bits below, so that
      the or is a sum. */
  lemma ShiftIn(result: nat, b: nat, i: nat, bits: nat)
    requires i < bits && result < Pow2(i)
    ensures var sum := result + Digit(b % 128, bits - i) * Pow2(i);
      && Or(result, ShiftLeft(And(b, 0x7F), i, bits)) == sum
      && sum < Pow2(if i + 7 < bits then i + 7 else bits)
  {
    var room, d := bits - i, b % 128;
    var m := if room < 7 then room else 7;
    assert And(b, 0x7F) == d by {
      SevenBits(7);
      AndLow(b, 7);
    }
    DigitCut(d, room);
    assert Pow2(bits) == Pow2(room) * Pow2(i) by { Pow2Sum(room, i); }
    Pow2Sum(m, i);
    Bound(Pow2(i), Digit(d, room), Pow2(m), result);
    CutShift(Pow2(i), d, Pow2(room), Digit(d, room));
    OrApart(result, Digit(d, room), i);
  }

  lemma DigitCut(d: nat, room: nat)
    requires d < 128 && room > 0
    ensures Digit(d, room) < Pow2(if room < 7 then room else 7)
    ensures Digit(d, room) == d % Pow2(room)
  {
    if room >= 7 {
      SevenBits(7);
      SevenBits(room);
      DivUnique(d, Pow2(room), 0, d);
    }
  }

  lemma {:induction false} Pow2Sum(a: nat, b: nat)
    ensures Pow2(a + b) == Pow2(a) * Pow2(b)
  {
    if a > 0 {
      Pow2Sum(a - 1, b);
      assert Pow2(a + b) == 2 * Pow2(a - 1 + b);
    }
  }

  lemma Bound(p: nat, d: nat, m: nat, r: nat)
    requires d < m && r < p
    ensures r + d * p < m * p
  {
    Apart(m, d, p);
  }

  lemma CutShift(p: nat, d: nat, m: nat, digit: nat)
    requires m > 0 && p > 0 && digit == d % m
    ensures (d * p) % (m * p) == digit * p
  {
    var q := d / m;
    DivMod(d, m);
    Bound(p, digit, m, 0);
    Distribute(q, m, digit, p);
    DivUnique(d * p, m * p, q, digit * p);
  }

  lemma Distribute(q: nat, m: nat, digit: nat, p: nat)
    ensures (q * m + digit) * p == q * (m * p) + digit * p
  {
  }

  /** One turn of the loop, in the terms of the specification. */
  lemma MergeStep(result: nat, i: nat, used: nat, s: seq<Byte>, bits: nat)
    requires i < bits && s != []
    ensures var digit := Digit(s[0] % 128, bits - i) * Pow2(i);
      Merge(result, Pow2(i), used, ReadVar(s, bits - i))
      == if s[0] < 128 then Value(result + digit, used + 1)
         else Merge(result + digit, Pow2(i + 7), used + 1, ReadVar(s[1..], if i + 7 < bits then bits - i - 7 else 0))
  {
    assert Pow2(i + 7) == 128 * Pow2(i) by { SevenBits(i + 7); }
    var d, p := Digit(s[0] % 128, bits - i), Pow2(i);
    var next := ReadVar(s[1..], if i + 7 < bits then bits - i - 7 else 0);
    if s[0] >= 128 && next.Value? {
      Distribute(next.value, 128, d, p);
    }
  }
}
