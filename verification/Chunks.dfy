/**
  A list of equal-sized memory blocks read as one flat byte string, and the block-walking loops of
  acid/common/byte_array.cpp as functions on it. A cursor is a block number; the number of blocks stands
  for the null pointer behind the last block.
 */
module Chunks {
  type Byte = b: nat | b < 256

  const U64: nat := 0x1_0000_0000_0000_0000

  function Flat(c: seq<seq<Byte>>): seq<Byte> {
    if c == [] then [] else c[0] + Flat(c[1..])
  }

  predicate Even(c: seq<seq<Byte>>, size: nat) {
    forall i :: 0 <= i < |c| ==> |c[i]| == size
  }

  /** `s` with `b` laid over it from position `p` on. */
  function Splice(s: seq<Byte>, p: nat, b: seq<Byte>): (r: seq<Byte>)
    requires p + |b| <= |s|
    ensures |r| == |s|
  {
    s[..p] + b + s[p + |b|..]
  }

  lemma {:induction false} FlatAppend(x: seq<seq<Byte>>, y: seq<seq<Byte>>)
    ensures Flat(x + y) == Flat(x) + Flat(y)
  {
    if x == [] {
      assert x + y == y;
    } else {
      assert (x + y)[1..] == x[1..] + y;
      FlatAppend(x[1..], y);
    }
  }

  lemma {:induction false} FlatLength(c: seq<seq<Byte>>, size: nat)
    requires Even(c, size)
    ensures |Flat(c)| == |c| * size
  {
    if c != [] {
      FlatLength(c[1..], size);
      assert |c| * size == size + (|c| - 1) * size;
    }
  }

  /** Block `i` is the flat string from `i * size` on. */
  lemma FlatAround(c: seq<seq<Byte>>, size: nat, i: nat)
    requires Even(c, size) && i < |c|
    ensures Flat(c) == Flat(c[..i]) + c[i] + Flat(c[i + 1..])
    ensures |Flat(c[..i])| == i * size
  {
    assert c == c[..i] + ([c[i]] + c[i + 1..]);
    FlatAppend(c[..i], [c[i]] + c[i + 1..]);
    assert ([c[i]] + c[i + 1..])[1..] == c[i + 1..];
    FlatLength(c[..i], size);
  }

  /** Writing inside one block is writing at the flat position. */
  lemma FlatSplice(c: seq<seq<Byte>>, size: nat, i: nat, o: nat, b: seq<Byte>)
    requires Even(c, size) && i < |c| && o + |b| <= size
    ensures Even(c[i := Splice(c[i], o, b)], size)
    ensures i * size + o + |b| <= |Flat(c)|
    ensures Flat(c[i := Splice(c[i], o, b)]) == Splice(Flat(c), i * size + o, b)
  {
    var d := c[i := Splice(c[i], o, b)];
    FlatAround(c, size, i);
    FlatAround(d, size, i);
    assert d[..i] == c[..i] && d[i + 1..] == c[i + 1..];
    var x, y, z := Flat(c[..i]), c[i], Flat(c[i + 1..]);
    SpliceMiddle(x, y, z, o, b);
  }

  lemma SpliceMiddle(x: seq<Byte>, y: seq<Byte>, z: seq<Byte>, o: nat, b: seq<Byte>)
    requires o + |b| <= |y|
    ensures x + Splice(y, o, b) + z == Splice(x + y + z, |x| + o, b)
  {
  }

  lemma SpliceTwice(s: seq<Byte>, p: nat, a: seq<Byte>, b: seq<Byte>)
    requires p + |a| + |b| <= |s|
    ensures Splice(Splice(s, p, a), p + |a|, b) == Splice(s, p, a + b)
  {
  }

  /** Reading inside one block is reading at the flat position. */
  lemma FlatSlice(c: seq<seq<Byte>>, size: nat, i: nat, o: nat, n: nat)
    requires Even(c, size) && i < |c| && o + n <= size
    ensures i * size + o + n <= |Flat(c)|
    ensures Flat(c)[i * size + o..i * size + o + n] == c[i][o..o + n]
  {
    FlatAround(c, size, i);
    FlatLength(c, size);
    SliceMiddle(Flat(c[..i]), c[i], Flat(c[i + 1..]), o, n, i * size + o);
  }

  lemma SliceMiddle(x: seq<Byte>, y: seq<Byte>, z: seq<Byte>, o: nat, n: nat, p: nat)
    requires o + n <= |y| && p == |x| + o
    ensures (x + y + z)[p..p + n] == y[o..o + n]
  {
  }

  lemma DivMod(p: nat, size: nat)
    requires size > 0
    ensures p == (p / size) * size + p % size && p % size < size
  {
  }

  /** The quotient rounded down, of a negative number too. */
  lemma DivUnique(x: int, size: nat, q: int, r: nat)
    requires r < size && x == q * size + r
    ensures x / size == q && x % size == r
  {
    var q1, r1 := x / size, x % size;
    assert x == q1 * size + r1 && 0 <= r1 < size;
    if q > q1 {
      Apart(q, q1, size);
    } else if q < q1 {
      Apart(q1, q, size);
    }
  }

  lemma Apart(a: int, b: int, size: nat)
    requires a > b
    ensures a * size >= b * size + size
  {
    assert a * size == b * size + size + (a - b - 1) * size;
  }

  // The quotient and the remainder of a position, by counting: arithmetic the solver need not know.

  /** The number of the block that a position falls in. */
  ghost function BlockNo(p: nat, size: nat): (k: nat)
    requires size > 0
  {
    if p < size then 0 else 1 + BlockNo(p - size, size)
  }

  /** The bytes of that block before the position. */
  ghost function Offset(p: nat, size: nat): (o: nat)
    requires size > 0
    ensures o < size
  {
    if p < size then p else Offset(p - size, size)
  }

  lemma {:induction false} Located(p: nat, size: nat, k: nat, o: nat)
    requires size > 0 && o < size && p == k * size + o
    ensures BlockNo(p, size) == k && Offset(p, size) == o
  {
    if k > 0 {
      assert p - size == (k - 1) * size + o;
      Located(p - size, size, k - 1, o);
    }
  }

  lemma BlockNoIsQuotient(p: nat, size: nat)
    requires size > 0
    ensures BlockNo(p, size) == p / size && Offset(p, size) == p % size
    ensures p == BlockNo(p, size) * size + Offset(p, size)
  {
    DivMod(p, size);
    Located(p, size, p / size, p % size);
  }

  /** Moving on inside a block, up to its end. */
  lemma {:induction false} MoveOn(p: nat, size: nat, n: nat)
    requires size > 0 && Offset(p, size) + n <= size
    ensures Offset(p, size) + n < size ==>
      BlockNo(p + n, size) == BlockNo(p, size) && Offset(p + n, size) == Offset(p, size) + n
    ensures Offset(p, size) + n == size ==>
      BlockNo(p + n, size) == BlockNo(p, size) + 1 && Offset(p + n, size) == 0
  {
    if p >= size {
      MoveOn(p - size, size, n);
    }
  }

  /** A position inside the flat string falls in a block, the one behind its end in none. */
  lemma {:induction false} BlockInside(c: seq<seq<Byte>>, size: nat, p: nat)
    requires size > 0 && Even(c, size) && p <= |Flat(c)|
    ensures BlockNo(p, size) <= |c|
    ensures BlockNo(p, size) < |c| <==> p < |Flat(c)|
    ensures p == |Flat(c)| ==> Offset(p, size) == 0
  {
    if c != [] && p >= size {
      BlockInside(c[1..], size, p - size);
    }
  }

  /** Bytes laid over one block from the offset of a position on, in the flat string. */
  lemma PutAt(c: seq<seq<Byte>>, size: nat, p: nat, b: seq<Byte>)
    requires size > 0 && Even(c, size) && BlockNo(p, size) < |c| && Offset(p, size) + |b| <= size
    ensures var k := BlockNo(p, size); var d := c[k := Splice(c[k], Offset(p, size), b)];
      Even(d, size) && p + |b| <= |Flat(c)| && Flat(d) == Splice(Flat(c), p, b)
  {
    BlockNoIsQuotient(p, size);
    FlatSplice(c, size, BlockNo(p, size), Offset(p, size), b);
  }

  /** What is left of the flat string behind a position is left of the blocks from its own on. */
  lemma {:induction false} TailFrom(c: seq<seq<Byte>>, size: nat, p: nat)
    requires size > 0 && Even(c, size) && p <= |Flat(c)|
    ensures BlockNo(p, size) <= |c|
    ensures |Flat(c[BlockNo(p, size)..])| == |Flat(c)| - p + Offset(p, size)
  {
    if p >= size {
      TailFrom(c[1..], size, p - size);
      assert c[1..][BlockNo(p - size, size)..] == c[BlockNo(p, size)..];
    } else {
      assert c[0..] == c;
    }
  }
}
