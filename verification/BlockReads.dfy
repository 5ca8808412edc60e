/**
  The block-walking loops that take bytes out of a ByteArray (acid/common/byte_array.cpp:348-404 and
  526-627) on values: a list of equal blocks, a cursor (a block number) and a byte position.
 */
module BlockReads {
  import opened Chunks

  /**
    What a walk comes to. `Fault` is undefined behaviour in C++: following the null pointer behind the last
    block, or copying from beyond the end of a block.
   */
  datatype Gathered = Copied(bytes: seq<Byte>, cursor: nat) | Fault

  /** The loop shared by both read functions, from the block `cur` and its offset `npos`; the loop believes
      that `ncap` bytes are left in that block. */
  function Scan(c: seq<seq<Byte>>, cur: nat, npos: nat, ncap: nat, n: nat): (r: Gathered)
    decreases |c| - cur
  {
    if n == 0 then Copied([], cur)
    else if cur >= |c| then Fault
    else if ncap >= n then
      if npos + n > |c[cur]| then Fault
      else Copied(c[cur][npos..npos + n], if ncap == n then cur + 1 else cur)
    else if npos + ncap > |c[cur]| || cur + 1 >= |c| then Fault
    else Prepend(c[cur][npos..npos + ncap], Scan(c, cur + 1, 0, |c[cur + 1]|, n - ncap))
  }

  function Prepend(b: seq<Byte>, g: Gathered): (r: Gathered) {
    match g
    case Fault => Fault
    case Copied(bytes, k) => Copied(b + bytes, k)
  }

  /** One turn of the loop, behind what has been gathered already. */
  lemma ScanStep(c: seq<seq<Byte>>, cur: nat, npos: nat, ncap: nat, n: nat, b: seq<Byte>, g: Gathered)
    requires n > 0 && cur < |c| && g == Prepend(b, Scan(c, cur, npos, ncap, n))
    ensures npos + (if ncap >= n then n else ncap) > |c[cur]| ==> g == Fault
    ensures npos + n <= |c[cur]| && ncap >= n ==> g == Copied(b + c[cur][npos..npos + n], if ncap == n then cur + 1 else cur)
    ensures ncap < n && cur + 1 >= |c| ==> g == Fault
    ensures npos + ncap <= |c[cur]| && ncap < n && cur + 1 < |c| ==>
      g == Prepend(b + c[cur][npos..npos + ncap], Scan(c, cur + 1, 0, |c[cur + 1]|, n - ncap))
  {
    if npos + ncap <= |c[cur]| && ncap < n && cur + 1 < |c| {
      var piece, later := c[cur][npos..npos + ncap], Scan(c, cur + 1, 0, |c[cur + 1]|, n - ncap);
      if later.Copied? {
        assert b + (piece + later.bytes) == (b + piece) + later.bytes;
      }
    }
  }

  /** read(buffer, n), with the bytes left in the block counted from the offset, as write counts them. */
  ghost function ReadMeant(c: seq<seq<Byte>>, size: nat, pos: nat, cur: nat, n: nat): (r: Gathered)
    requires size > 0
  {
    if cur >= |c| then Fault else Scan(c, cur, Offset(pos, size), size - Offset(pos, size), n)
  }

  /** read(buffer, n) as written: the bytes left in the block are counted from the position, in size_t. */
  ghost function ReadAsWritten(c: seq<seq<Byte>>, size: nat, pos: nat, cur: nat, n: nat): (r: Gathered)
    requires size > 0
  {
    if cur >= |c| then Fault else Scan(c, cur, Offset(pos, size), (size - pos) % U64, n)
  }

  /** read(buffer, n, position): the walk starts in the block of the cursor, whatever `position` is. */
  ghost function ReadAt(c: seq<seq<Byte>>, size: nat, cur: nat, position: nat, n: nat): (r: Gathered)
    requires size > 0
  {
    ReadMeant(c, size, position, cur, n)
  }

  /** What a reader of `n` bytes at `pos` should get: the bytes of the flat string, and the cursor of the
      position behind them. */
  ghost function Exactly(c: seq<seq<Byte>>, size: nat, pos: nat, n: nat): (r: Gathered)
    requires size > 0 && pos + n <= |Flat(c)|
  {
    Copied(Flat(c)[pos..pos + n], BlockNo(pos + n, size))
  }

  /** The walk from an offset of a block, knowing what is left in that block, in the flat string of that block
      and those behind it. */
  lemma {:induction false} ScanTail(c: seq<seq<Byte>>, size: nat, cur: nat, o: nat, n: nat)
    requires size > 0 && Even(c, size) && cur < |c| && o < size && o + n <= |Flat(c[cur..])|
    ensures Scan(c, cur, o, size - o, n) == Copied(Flat(c[cur..])[o..o + n], cur + BlockNo(o + n, size))
    decreases n
  {
    var k, rest := size - o, Flat(c[cur + 1..]);
    assert c[cur..][1..] == c[cur + 1..];
    assert Flat(c[cur..]) == c[cur] + rest;
    if n > k {
      ScanTail(c, size, cur + 1, 0, n - k);
      AcrossBlocks(c[cur], rest, o, n);
    }
  }

  lemma AcrossBlocks(x: seq<Byte>, rest: seq<Byte>, o: nat, n: nat)
    requires |x| <= o + n <= |x| + |rest| && o <= |x|
    ensures (x + rest)[o..o + n] == x[o..] + rest[..o + n - |x|]
  {
  }

  /** The flat string from a position on is that of the blocks from its own on. */
  lemma {:induction false} TailSlice(c: seq<seq<Byte>>, size: nat, pos: nat, n: nat)
    requires size > 0 && Even(c, size) && pos + n <= |Flat(c)|
    ensures BlockNo(pos, size) <= |c|
    ensures var tail, o := Flat(c[BlockNo(pos, size)..]), Offset(pos, size);
      o + n <= |tail| && Flat(c)[pos..pos + n] == tail[o..o + n]
  {
    if pos >= size {
      var p := pos - size;
      assert Flat(c) == c[0] + Flat(c[1..]) && |c[0]| == size;
      TailSlice(c[1..], size, p, n);
      assert c[1..][BlockNo(p, size)..] == c[BlockNo(pos, size)..];
      assert Flat(c)[pos..pos + n] == Flat(c[1..])[p..p + n];
    } else {
      assert c[0..] == c;
    }
  }

  /** The walk from the block and the offset of a position, knowing what is left in that block. */
  lemma ScanExact(c: seq<seq<Byte>>, size: nat, pos: nat, n: nat)
    requires size > 0 && Even(c, size) && pos + n <= |Flat(c)| && pos < |Flat(c)|
    ensures BlockNo(pos, size) < |c|
    ensures Scan(c, BlockNo(pos, size), Offset(pos, size), size - Offset(pos, size), n) == Exactly(c, size, pos, n)
  {
    BlockInside(c, size, pos);
    TailSlice(c, size, pos, n);
    ScanTail(c, size, BlockNo(pos, size), Offset(pos, size), n);
    CountOn(pos, size, n);
  }

  /** Blocks counted in two goes. */
  lemma {:induction false} CountOn(pos: nat, size: nat, n: nat)
    requires size > 0
    ensures BlockNo(pos + n, size) == BlockNo(pos, size) + BlockNo(Offset(pos, size) + n, size)
    ensures Offset(pos + n, size) == Offset(Offset(pos, size) + n, size)
  {
    if pos >= size {
      CountOn(pos - size, size, n);
    }
  }

  /** Reading inside one block is reading at the flat position. */
  lemma SliceAt(c: seq<seq<Byte>>, size: nat, pos: nat, n: nat)
    requires size > 0 && Even(c, size) && BlockNo(pos, size) < |c| && Offset(pos, size) + n <= size
    ensures pos + n <= |Flat(c)|
    ensures Flat(c)[pos..pos + n] == c[BlockNo(pos, size)][Offset(pos, size)..Offset(pos, size) + n]
  {
    BlockNoIsQuotient(pos, size);
    FlatSlice(c, size, BlockNo(pos, size), Offset(pos, size), n);
  }

  /** The walk from the start of a block never loses count of the block it ends in. */
  lemma {:induction false} ScanCursor(c: seq<seq<Byte>>, size: nat, cur: nat, n: nat)
    requires size > 0 && Even(c, size) && cur < |c|
    ensures var r := Scan(c, cur, 0, size, n); r.Copied? ==> r.cursor == cur + BlockNo(n, size)
    decreases |c| - cur
  {
    if n > size && cur + 1 < |c| {
      ScanCursor(c, size, cur + 1, n - size);
    }
  }

  /**
    The read that is meant gives exactly the bytes of the flat string from the position on, across any number
    of blocks, and leaves the cursor at the block of the new position. One case is left: behind the last
    block the cursor is null and is followed even for a read of nothing.
   */
  lemma MeantReadIsExact(c: seq<seq<Byte>>, size: nat, pos: nat, n: nat)
    requires size > 0 && Even(c, size) && pos + n <= |Flat(c)|
    ensures ReadMeant(c, size, pos, BlockNo(pos, size), n)
         == if pos == |Flat(c)| then Fault else Exactly(c, size, pos, n)
  {
    BlockInside(c, size, pos);
    if pos < |Flat(c)| {
      ScanExact(c, size, pos, n);
    }
  }

  /** The reads inside the memory that go right as written: of nothing, or from inside the first block, or from
      behind the first byte of the second block without reaching the end of their own block. */
  ghost predicate WrittenReadFits(size: nat, pos: nat, n: nat)
    requires size > 0
  {
    n == 0 || pos < size || (pos > size && Offset(pos, size) + n < size)
  }

  /** As written the read is right, in its bytes and in the cursor it leaves, exactly for those reads, and not
      behind the last block. */
  lemma AsWrittenReadIff(c: seq<seq<Byte>>, size: nat, pos: nat, n: nat)
    requires size > 0 && Even(c, size) && pos + n <= |Flat(c)| < U64
    ensures ReadAsWritten(c, size, pos, BlockNo(pos, size), n) == Exactly(c, size, pos, n)
       <==> pos < |Flat(c)| && WrittenReadFits(size, pos, n)
  {
    BlockInside(c, size, pos);
    if pos < |Flat(c)| {
      if pos < size {
        FirstBlockLeft(c, size, pos);
        ScanExact(c, size, pos, n);
      } else if pos > size {
        FarRead(c, size, pos, n);
      } else if n > 0 {
        SecondBlockSkipped(c, size, n);
      }
    }
  }

  lemma FirstBlockLeft(c: seq<seq<Byte>>, size: nat, pos: nat)
    requires Even(c, size) && pos < size && 0 < |c| && |Flat(c)| < U64
    ensures (size - pos) % U64 == size - Offset(pos, size)
  {
    assert |Flat(c)| == |c[0]| + |Flat(c[1..])|;
  }

  /** Behind the first byte of the second block the walk believes that its block never ends. */
  lemma FarRead(c: seq<seq<Byte>>, size: nat, pos: nat, n: nat)
    requires size > 0 && Even(c, size) && size < pos < |Flat(c)| < U64 && pos + n <= |Flat(c)|
    ensures ReadAsWritten(c, size, pos, BlockNo(pos, size), n) == Exactly(c, size, pos, n)
       <==> WrittenReadFits(size, pos, n)
  {
    BlockInside(c, size, pos);
    assert (size - pos) % U64 == U64 + size - pos > n;
    if Offset(pos, size) + n <= size {
      SliceAt(c, size, pos, n);
      MoveOn(pos, size, n);
    }
  }

  /** A read of something that starts at the second block skips that block. */
  lemma SecondBlockSkipped(c: seq<seq<Byte>>, size: nat, n: nat)
    requires size > 0 && Even(c, size) && n > 0 && size + n <= |Flat(c)| < U64
    ensures ReadAsWritten(c, size, size, 1, n) != Exactly(c, size, size, n)
  {
    BlockInside(c, size, size);
    var r := ReadAsWritten(c, size, size, 1, n);
    assert r == Scan(c, 1, 0, 0, n);
    if |c| > 2 {
      ScanCursor(c, size, 2, n);
      assert |c[2]| == size;
    }
  }

  /** Where there is no third block, the walk then follows the null pointer. */
  lemma SecondBlockFaults(c: seq<seq<Byte>>, size: nat, n: nat)
    requires size > 0 && Even(c, size) && |c| == 2 && n > 0
    ensures ReadAsWritten(c, size, size, BlockNo(size, size), n) == Fault
  {
    Located(size, size, 1, 0);
  }

  /** read(buffer, n, position) starts from the wrong block unless the position lies in the cursor's one: what
      it delivers are the bytes at the same offset of the cursor's block. */
  lemma ReadAtUsesCursorBlock(c: seq<seq<Byte>>, size: nat, pos: nat, position: nat, n: nat)
    requires size > 0 && Even(c, size) && pos < |Flat(c)| && Offset(pos, size) == Offset(position, size)
    requires pos + n <= |Flat(c)|
    ensures ReadAt(c, size, BlockNo(pos, size), position, n) == Exactly(c, size, pos, n)
    ensures pos == position <==> BlockNo(pos, size) == BlockNo(position, size)
  {
    ScanExact(c, size, pos, n);
    BlockNoIsQuotient(pos, size);
    BlockNoIsQuotient(position, size);
  }

  lemma {:induction false} ScanInside(c: seq<seq<Byte>>, cur: nat, npos: nat, ncap: nat, n: nat)
    requires cur <= |c|
    ensures var r := Scan(c, cur, npos, ncap, n); r.Copied? ==> r.cursor <= |c|
    decreases |c| - cur
  {
    if cur + 1 < |c| && ncap < n {
      ScanInside(c, cur + 1, 0, |c[cur + 1]|, n - ncap);
    }
  }

  // ---- iovec views ----

  datatype Segment = Segment(block: nat, offset: nat, length: nat)

  /** The segments pushed for `n` bytes from block `cur`, offset `npos`. As written the loop breaks before it
      pushes the last one; `last` says whether that one is pushed too. */
  function Segments(size: nat, cur: nat, npos: nat, n: nat, last: bool): (r: seq<Segment>)
    requires npos < size
    decreases n
  {
    if n == 0 then []
    else if size - npos >= n then (if last then [Segment(cur, npos, n)] else [])
    else [Segment(cur, npos, size - npos)] + Segments(size, cur + 1, 0, n - (size - npos), last)
  }

  /** One turn of the loop, behind what has been pushed already. */
  lemma PushStep(size: nat, cur: nat, npos: nat, n: nat, done: seq<Segment>, all: seq<Segment>)
    requires npos < size && size - npos < n && all == done + Segments(size, cur, npos, n, false)
    ensures all == (done + [Segment(cur, npos, size - npos)]) + Segments(size, cur + 1, 0, n - (size - npos), false)
  {
  }

  predicate Within(c: seq<seq<Byte>>, v: seq<Segment>) {
    v != [] ==> v[0].block < |c| && v[0].offset + v[0].length <= |c[v[0].block]| && Within(c, v[1..])
  }

  function Covered(c: seq<seq<Byte>>, v: seq<Segment>): (r: seq<Byte>)
    requires Within(c, v)
  {
    if v == [] then []
    else c[v[0].block][v[0].offset..v[0].offset + v[0].length] + Covered(c, v[1..])
  }

  /** How many bytes the pushed segments show. */
  function Shown(size: nat, npos: nat, n: nat, last: bool): (r: nat)
    requires npos < size
    decreases n
  {
    if size - npos >= n then (if last then n else 0)
    else (size - npos) + Shown(size, 0, n - (size - npos), last)
  }

  /** What the pushed segments show is the flat string from where they begin. */
  lemma {:induction false} ViewTail(c: seq<seq<Byte>>, size: nat, cur: nat, o: nat, n: nat, last: bool)
    requires size > 0 && Even(c, size) && cur < |c| && o < size && o + n <= |Flat(c[cur..])|
    ensures Within(c, Segments(size, cur, o, n, last))
    ensures o + Shown(size, o, n, last) <= |Flat(c[cur..])|
    ensures Covered(c, Segments(size, cur, o, n, last)) == Flat(c[cur..])[o..o + Shown(size, o, n, last)]
    decreases n
  {
    var k, rest := size - o, Flat(c[cur + 1..]);
    assert c[cur..][1..] == c[cur + 1..];
    assert Flat(c[cur..]) == c[cur] + rest;
    if n > k {
      ViewTail(c, size, cur + 1, 0, n - k, last);
      ViewAcross(c, cur, o, k, Segments(size, cur + 1, 0, n - k, last), rest, Shown(size, 0, n - k, last));
    } else if n > 0 && last {
      CoveredCons(c, Segment(cur, o, n), []);
    }
  }

  lemma ViewAcross(c: seq<seq<Byte>>, cur: nat, o: nat, k: nat, w: seq<Segment>, rest: seq<Byte>, m: nat)
    requires cur < |c| && o + k == |c[cur]| && Within(c, w) && m <= |rest| && Covered(c, w) == rest[..m]
    ensures var v := [Segment(cur, o, k)] + w; Within(c, v) && Covered(c, v) == (c[cur] + rest)[o..o + k + m]
  {
    CoveredCons(c, Segment(cur, o, k), w);
    AcrossBlocks(c[cur], rest, o, k + m);
  }

  lemma CoveredCons(c: seq<seq<Byte>>, s: Segment, w: seq<Segment>)
    requires Within(c, w) && s.block < |c| && s.offset + s.length <= |c[s.block]|
    ensures Within(c, [s] + w)
    ensures Covered(c, [s] + w) == c[s.block][s.offset..s.offset + s.length] + Covered(c, w)
    ensures [s] + [] == [s]
  {
    assert ([s] + w)[1..] == w;
  }

  lemma {:induction false} ShownAll(size: nat, npos: nat, n: nat)
    requires npos < size
    ensures Shown(size, npos, n, true) == n
    decreases n
  {
    if size - npos < n {
      ShownAll(size, 0, n - (size - npos));
    }
  }

  /** Without the last segment the end is missed, back to the last block boundary before it. */
  lemma {:induction false} ShownMisses(size: nat, npos: nat, n: nat)
    requires npos < size
    ensures var m := Shown(size, npos, n, false);
      && m <= n <= m + size && (m == n <==> n == 0) && (m == 0 <==> npos + n <= size)
      && (m > 0 ==> Offset(npos + m, size) == 0)
    decreases n
  {
    var k := size - npos;
    if k < n {
      ShownMisses(size, 0, n - k);
    }
  }

  /** The same in the flat string of all blocks. */
  lemma ViewShows(c: seq<seq<Byte>>, size: nat, pos: nat, n: nat, last: bool, m: nat)
    requires size > 0 && Even(c, size) && pos + n <= |Flat(c)| && pos < |Flat(c)|
    requires m == Shown(size, Offset(pos, size), n, last) <= n
    ensures var v := Segments(size, BlockNo(pos, size), Offset(pos, size), n, last);
      Within(c, v) && Covered(c, v) == Flat(c)[pos..pos + m]
  {
    BlockInside(c, size, pos);
    TailSlice(c, size, pos, n);
    TailSlice(c, size, pos, m);
    ViewTail(c, size, BlockNo(pos, size), Offset(pos, size), n, last);
  }

  /** With the last segment pushed the view is exactly the bytes asked for. */
  lemma FullViewIsExact(c: seq<seq<Byte>>, size: nat, pos: nat, n: nat)
    requires size > 0 && Even(c, size) && pos + n <= |Flat(c)| && pos < |Flat(c)|
    ensures var v := Segments(size, BlockNo(pos, size), Offset(pos, size), n, true);
      Within(c, v) && Covered(c, v) == Flat(c)[pos..pos + n]
  {
    ShownAll(size, Offset(pos, size), n);
    ViewShows(c, size, pos, n, true, n);
  }

  /**
    As written the view always misses its end: it is a prefix of the bytes asked for that stops at the last
    block boundary before their end, or is empty when they lie in one block. So it is complete exactly when
    nothing was asked for, while the function still reports the full length.
   */
  lemma ViewMissesItsEnd(c: seq<seq<Byte>>, size: nat, pos: nat, n: nat)
    requires size > 0 && Even(c, size) && pos + n <= |Flat(c)| && pos < |Flat(c)|
    ensures var v := Segments(size, BlockNo(pos, size), Offset(pos, size), n, false);
      && Within(c, v)
      && |Covered(c, v)| <= n
      && Covered(c, v) == Flat(c)[pos..pos + |Covered(c, v)|]
      && (|Covered(c, v)| == n <==> n == 0)
      && n <= |Covered(c, v)| + size
      && (Covered(c, v) == [] <==> Offset(pos, size) + n <= size)
      && (Covered(c, v) != [] ==> Offset(pos + |Covered(c, v)|, size) == 0)
  {
    var m := Shown(size, Offset(pos, size), n, false);
    ShownMisses(size, Offset(pos, size), n);
    ViewShows(c, size, pos, n, false, m);
    CountOn(pos, size, m);
  }
}
