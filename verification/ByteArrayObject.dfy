/** acid/common/byte_array.cpp: a byte string kept in a chain of equal blocks, with a cursor. */
module ByteArrays {
  import opened Chunks
  import opened BlockReads

  class Node {
    const data: array<Byte>
    var next: Node?

    constructor (size: nat)
      ensures fresh(data) && data.Length == size && next == null
    {
      data := new Byte[size];
      next := null;
    }
  }

  datatype IoVec = IoVec(base: array<Byte>, offset: nat, length: nat)

  /** What a read comes to: bytes, the out_of_range exception, or undefined behaviour. */
  datatype ReadResult = Got(bytes: seq<Byte>) | OutOfRange | Undefined

  /** `old` with `b` laid over it from `p` on, and grown where `b` goes beyond its end. */
  function Overwrite(s: seq<Byte>, p: nat, b: seq<Byte>): (r: seq<Byte>)
    requires p <= |s|
  {
    s[..p] + b + if p + |b| < |s| then s[p + |b|..] else []
  }

  ghost predicate Chained(nodes: seq<Node>)
    reads nodes
  {
    && (forall i {:trigger nodes[i].next} :: 0 <= i < |nodes| - 1 ==> nodes[i].next == nodes[i + 1])
    && (|nodes| > 0 ==> nodes[|nodes| - 1].next == null)
  }

  ghost predicate Distinct(nodes: seq<Node>, size: nat) {
    && (forall i :: 0 <= i < |nodes| ==> nodes[i].data.Length == size)
    && forall i, j :: 0 <= i < j < |nodes| ==> nodes[i].data != nodes[j].data
  }

  /** The block contents, listed along the chain. */
  ghost predicate Holds(nodes: seq<Node>, arrays: set<array<Byte>>, blocks: seq<seq<Byte>>)
    reads arrays
  {
    && |blocks| == |nodes|
    && forall i :: 0 <= i < |nodes| ==> nodes[i].data in arrays && nodes[i].data[..] == blocks[i]
  }

  /** The bytes of `a` are still there in `b`, but for the positions from `p` to `q`. */
  ghost predicate KeptOutside(a: seq<Byte>, b: seq<Byte>, p: nat, q: nat) {
    |a| <= |b| && forall i :: 0 <= i < |a| && !(p <= i < q) ==> b[i] == a[i]
  }

  /** memcpy into a block */
  method CopyInto(a: array<Byte>, o: nat, b: seq<Byte>)
    requires o + |b| <= a.Length
    modifies a
    ensures a[..] == Splice(old(a[..]), o, b)
  {
    forall i | 0 <= i < |b| {
      a[o + i] := b[i];
    }
  }

  /** a - b in size_t */
  function UnsignedMinus(a: nat, b: nat): (r: int) {
    if b <= a then a - b else a + U64 - b
  }

  class ByteArray {
    const m_base_size: nat
    const repaired: bool        // whether read() counts what is left of a block as write() does, or as written
    var m_position: nat
    var m_capacity: nat
    var m_size: nat
    var m_root: Node
    var m_cur: Node?
    ghost var nodes: seq<Node>
    ghost var arrays: set<array<Byte>>
    ghost var blocks: seq<seq<Byte>>
    ghost var Repr: set<object>

    /** The chain of blocks, with the ghost list of what they hold. */
    ghost predicate Stored()
      reads this`nodes, this`arrays, this`Repr, this`blocks, this`m_capacity, nodes, arrays
    {
      && m_base_size > 0 && |nodes| > 0
      && Linked() && Distinct(nodes, m_base_size)
      && this in Repr && arrays <= Repr && (forall i :: 0 <= i < |nodes| ==> nodes[i] in Repr)
      && Even(blocks, m_base_size) && m_capacity == |Flat(blocks)|
    }

    ghost predicate Linked()
      reads this`nodes, this`arrays, this`blocks, nodes, arrays
    {
      Chained(nodes) && Holds(nodes, arrays, blocks)
    }

    ghost predicate Valid()
      reads this, nodes, arrays
    {
      && Stored() && nodes[0] == m_root
      && m_position <= m_size <= m_capacity
      && m_cur == CursorOf(m_position)
    }

    /** The block a position falls in; none behind the last block. */
    ghost function CursorOf(pos: nat): Node?
      requires m_base_size > 0
      reads this`nodes
    {
      NodeAt(BlockNo(pos, m_base_size))
    }

    ghost function Contents(): (s: seq<Byte>)
      requires Valid()
      reads this, nodes, arrays
      ensures |s| == m_size
    {
      FlatLength(blocks, m_base_size);
      Flat(blocks)[..m_size]
    }

    /** What the invariant says in numbers: whole blocks, and a cursor that is the block of the position,
        null exactly at the capacity. */
    lemma CursorInNumbers()
      requires Valid()
      ensures m_position < m_capacity ==>
        m_position / m_base_size < |nodes| && m_cur == nodes[m_position / m_base_size]
      ensures m_cur == null <==> m_position == m_capacity
      ensures m_position <= m_size <= m_capacity && m_capacity == |nodes| * m_base_size
    {
      FlatLength(blocks, m_base_size);
      BlockInside(blocks, m_base_size, m_position);
      BlockNoIsQuotient(m_position, m_base_size);
    }

    /** Reads do what they are meant to: all of them once read() is repaired, and as written while there is one
        block only. */
    ghost predicate Sound()
      reads this`m_capacity
    {
      repaired || m_capacity == m_base_size < U64
    }

    constructor (base_size: nat, repaired: bool)
      requires base_size > 0
      ensures Valid() && m_base_size == base_size && m_capacity == base_size && this.repaired == repaired
      ensures Contents() == [] && m_position == 0
      ensures fresh(Repr)
    {
      m_base_size, this.repaired := base_size, repaired;
      m_position, m_capacity, m_size := 0, base_size, 0;
      var root := new Node(base_size);
      m_root, m_cur := root, root;
      nodes, arrays, blocks := [root], {root.data}, [root.data[..]];
      Repr := {this, root, root.data};
      new;
    }

    /** get_read_size() */
    method GetReadSize() returns (n: nat)
      requires Valid()
      ensures n == |Contents()[m_position..]|
    {
      n := m_size - m_position;
    }

    /** One more block at the end of the chain. */
    method AppendNode(last: Node) returns (node: Node)
      requires Stored() && last == nodes[|nodes| - 1]
      modifies this`nodes, this`arrays, this`Repr, this`blocks, this`m_capacity, last
      ensures fresh(node) && fresh(node.data) && nodes == old(nodes) + [node] && old(blocks) <= blocks
      ensures arrays == old(arrays) + {node.data} && Repr == old(Repr) + {node, node.data}
      ensures Stored()
    {
      node := new Node(m_base_size);
      last.next := node;
      m_capacity := m_capacity + m_base_size;
      Repr := Repr + {node, node.data};
      nodes, arrays, blocks := nodes + [node], arrays + {node.data}, blocks + [node.data[..]];
      FlatAppend(old(blocks), [node.data[..]]);
      assert Flat([node.data[..]]) == node.data[..] + Flat([]);
      assert Linked();
    }
  
    /** Room for `size` more bytes behind the position, by whole blocks and no block too many. */
    method AddCapacity(size: nat)
      requires Valid()
      modifies this`m_cur, this`nodes, this`arrays, this`Repr, this`blocks, this`m_capacity, nodes
      ensures Valid()
      ensures old(nodes) <= nodes
      ensures fresh(Repr - old(Repr)) && fresh(arrays - old(arrays)) && old(blocks) <= blocks
      ensures m_position + size <= m_capacity
      ensures m_capacity == old(m_capacity) || m_capacity < m_position + size + m_base_size
      ensures m_position + size <= old(m_capacity) ==> m_capacity == old(m_capacity)
      ensures size > 0 ==> m_cur != null
    {
      if size == 0 {
        return;
      }
      var old_capacity := m_capacity - m_position;
      if old_capacity > size {
        BlockInside(blocks, m_base_size, m_position);
        return;
      }
      Grow(size, old_capacity);
    }

    method Grow(size: nat, old_capacity: nat)
      requires Valid() && size > 0 && m_capacity == m_position + old_capacity <= m_position + size
      modifies this`m_cur, this`nodes, this`arrays, this`Repr, this`blocks, this`m_capacity, nodes
      ensures Valid()
      ensures old(nodes) <= nodes
      ensures fresh(Repr - old(Repr)) && fresh(arrays - old(arrays)) && old(blocks) <= blocks
      ensures m_position + size <= m_capacity < m_position + size + m_base_size
      ensures m_position + size == old(m_capacity) ==> m_capacity == old(m_capacity)
      ensures m_cur != null
    {
      ghost var before := |nodes|;
      var first := Lengthen(size - old_capacity);
      MoveToNew(first, old_capacity, before);
    }

    /** Enough blocks for the bytes missing, the first of them handed out. */
    method Lengthen(missing: nat) returns (first: Node?)
      requires Valid()
      modifies this`nodes, this`arrays, this`Repr, this`blocks, this`m_capacity, nodes
      ensures Stored() && old(nodes) <= nodes && old(blocks) <= blocks
      ensures fresh(Repr - old(Repr)) && fresh(arrays - old(arrays))
      ensures old(m_capacity) + missing <= m_capacity < old(m_capacity) + missing + m_base_size
      ensures missing == 0 ==> m_capacity == old(m_capacity)
      ensures missing > 0 ==> |old(nodes)| < |nodes| && first == nodes[|old(nodes)|]
      ensures if m_position == old(m_capacity) then BlockNo(m_position, m_base_size) == |old(nodes)|
              else BlockNo(m_position, m_base_size) < |old(nodes)|
    {
      var count := CountBlocks(missing, m_base_size);
      var tmp := LastNode();
      ghost var c := blocks;
      first := Extend(tmp, count);
      RoomAfterGrowth(c, blocks, m_position, missing, m_base_size);
    }

    /** A position without room behind it falls in the first of the new blocks. */
    method MoveToNew(first: Node?, old_capacity: nat, ghost before: nat)
      requires Stored() && nodes[0] == m_root && m_position <= m_size <= m_capacity
      requires if old_capacity == 0
        then BlockNo(m_position, m_base_size) == before < |nodes| && first == nodes[before]
        else BlockNo(m_position, m_base_size) < before <= |nodes| && m_cur == nodes[BlockNo(m_position, m_base_size)]
      modifies this`m_cur
      ensures Valid() && m_cur != null
    {
      if old_capacity == 0 {
        m_cur := first;
      }
    }

    /** The loop that hangs `count` new blocks behind the last one. */
    method Extend(last: Node, count: nat) returns (first: Node?)
      requires Stored() && last == nodes[|nodes| - 1]
      modifies this`nodes, this`arrays, this`Repr, this`blocks, this`m_capacity, last
      ensures |nodes| == |old(nodes)| + count && old(nodes) <= nodes
      ensures fresh(Repr - old(Repr)) && fresh(arrays - old(arrays)) && old(blocks) <= blocks
      ensures Stored()
      ensures count > 0 ==> first == nodes[|old(nodes)|]
    {
      ghost var n0 := |nodes|;
      var tmp := last;
      first := null;
      var i := 0;
      while i < count
        invariant 0 <= i <= count && |nodes| == n0 + i && nodes[..n0] == old(nodes) && old(blocks) <= blocks
        invariant fresh(Repr - old(Repr)) && fresh(arrays - old(arrays))
        invariant Stored()
        invariant tmp == nodes[|nodes| - 1] && (tmp == last || fresh(tmp))
        invariant if i == 0 then first == null else first == nodes[n0]
      {
        tmp := AppendNode(tmp);
        if first == null {
          first := tmp;
        }
        i := i + 1;
      }
    }

    method LastNode() returns (tmp: Node)
      requires Valid()
      ensures tmp == nodes[|nodes| - 1]
    {
      tmp := m_root;
      ghost var k := 0;
      while tmp.next != null
        invariant 0 <= k < |nodes| && tmp == nodes[k]
        decreases |nodes| - k
      {
        tmp := tmp.next;
        k := k + 1;
      }
    }

    /** The cursor stands in the block of the position, which has `o` bytes before it. */
    ghost predicate InBlock(o: nat)
      requires m_base_size > 0
      reads this`nodes, this`m_cur, this`m_position
    {
      && BlockNo(m_position, m_base_size) < |nodes| && m_cur == nodes[BlockNo(m_position, m_base_size)]
      && m_cur.data.Length == m_base_size && o == Offset(m_position, m_base_size)
    }

    /** One turn of the copying loop: memcpy into the block of the cursor, and on to the next one behind its
        last byte. */
    method PutInBlock(npos: nat, b: seq<Byte>)
      requires Stored() && InBlock(npos) && npos + |b| <= m_base_size
      modifies this`m_position, this`m_cur, this`blocks, m_cur.data
      ensures Stored()
      ensures m_position == old(m_position) + |b| <= m_capacity
      ensures Flat(blocks) == Splice(old(Flat(blocks)), old(m_position), b)
      ensures m_cur == CursorOf(m_position)
      ensures npos + |b| == m_base_size && m_position < m_capacity ==> InBlock(0)
    {
      CopyHere(npos, b);
      MoveCursor(npos, |b|);
    }

    /** On inside the block, or to the next one behind its last byte. */
    method MoveCursor(npos: nat, n: nat)
      requires Stored() && InBlock(npos) && npos + n <= m_base_size && m_position + n <= m_capacity
      modifies this`m_position, this`m_cur
      ensures m_position == old(m_position) + n
      ensures m_cur == CursorOf(m_position)
      ensures npos + n == m_base_size && m_position < m_capacity ==> InBlock(0)
    {
      MoveOn(m_position, m_base_size, n);
      BlockInside(blocks, m_base_size, m_position + n);
      if npos + n == m_base_size {
        m_cur := m_cur.next;
      }
      m_position := m_position + n;
    }

    /** memcpy into the block of the cursor. */
    method CopyHere(npos: nat, b: seq<Byte>)
      requires Stored() && InBlock(npos) && npos + |b| <= m_base_size
      modifies this`blocks, m_cur.data
      ensures Stored() && m_position + |b| <= m_capacity
      ensures Flat(blocks) == Splice(old(Flat(blocks)), m_position, b)
    {
      ghost var k := BlockNo(m_position, m_base_size);
      PutAt(blocks, m_base_size, m_position, b);
      CopyInto(m_cur.data, npos, b);
      blocks := blocks[k := Splice(blocks[k], npos, b)];
    }

    /**
      write(buffer, size): the bytes overwrite what is there, or append, and the position moves behind them.
      No other byte of any block changes, not even beyond the size.
     */
    method Write(buffer: seq<Byte>)
      requires Valid()
      modifies Repr
      ensures Valid() && fresh(Repr - old(Repr))
      ensures Contents() == Overwrite(old(Contents()), old(m_position), buffer)
      ensures m_position == old(m_position) + |buffer|
      ensures KeptOutside(old(Flat(blocks)), Flat(blocks), old(m_position), m_position)
      ensures m_capacity == old(m_capacity) || old(m_capacity) < m_capacity < m_position + m_base_size
      ensures m_position <= old(m_capacity) ==> m_capacity == old(m_capacity)
    {
      if |buffer| == 0 {
        return;
      }
      ghost var c, p, n := Flat(blocks), m_position, m_size;
      ghost var grown := MakeRoomAndFill(buffer);
      if m_position > m_size {
        m_size := m_position;
      }
      WriteMeans(c, grown, p, n, buffer);
    }

    method MakeRoomAndFill(buffer: seq<Byte>) returns (ghost grown: seq<Byte>)
      requires Valid() && |buffer| > 0
      modifies this`m_position, this`m_cur, this`nodes, this`arrays, this`Repr, this`blocks, this`m_capacity
      modifies nodes, arrays
      ensures Stored() && nodes[0] == m_root && m_cur == CursorOf(m_position)
      ensures old(nodes) <= nodes && fresh(Repr - old(Repr))
      ensures m_position == old(m_position) + |buffer| <= m_capacity == |grown|
      ensures old(Flat(blocks)) <= grown && Flat(blocks) == Splice(grown, old(m_position), buffer)
      ensures m_capacity == old(m_capacity) || m_capacity < m_position + m_base_size
      ensures m_position <= old(m_capacity) ==> m_capacity == old(m_capacity)
    {
      ghost var c := blocks;
      AddCapacity(|buffer|);
      FlatGrown(c, blocks);
      grown := Flat(blocks);
      FillFromHere(buffer);
      assert buffer[..|buffer|] == buffer;
    }

    /** `i` bytes of `buffer` are laid over the memory `m` from the position `p` on. */
    ghost predicate Laid(m: seq<Byte>, p: nat, buffer: seq<Byte>, i: nat)
      reads this`m_position, this`blocks
    {
      && p + |buffer| <= |m| && i <= |buffer|
      && m_position == p + i && Flat(blocks) == Splice(m, p, buffer[..i])
    }

    /** One turn of the copying loop of write. */
    method PutSome(buffer: seq<Byte>, bpos: nat, n: nat, npos: nat, ghost m: seq<Byte>, ghost p: nat)
      requires Stored() && InBlock(npos) && bpos + n <= |buffer| && npos + n <= m_base_size
      requires Laid(m, p, buffer, bpos)
      modifies this`m_position, this`m_cur, this`blocks, arrays
      ensures Stored() && Laid(m, p, buffer, bpos + n)
      ensures m_cur == CursorOf(m_position)
      ensures npos + n == m_base_size && bpos + n < |buffer| ==> InBlock(0)
    {
      ghost var m1 := Flat(blocks);
      PutInBlock(npos, buffer[bpos..bpos + n]);
      SpliceMore(m, p, buffer, bpos, n, m1, Flat(blocks));
    }

    /** m_position % m_base_size */
    method OffsetHere() returns (npos: nat)
      requires Valid() && m_position < m_capacity
      ensures InBlock(npos)
    {
      npos := m_position % m_base_size;
      BlockInside(blocks, m_base_size, m_position);
      BlockNoIsQuotient(m_position, m_base_size);
    }

    method FillFromHere(buffer: seq<Byte>)
      requires Valid() && |buffer| > 0 && m_position + |buffer| <= m_capacity
      modifies this`m_position, this`m_cur, this`blocks, arrays
      ensures Stored() && m_cur == CursorOf(m_position)
      ensures Laid(old(Flat(blocks)), old(m_position), buffer, |buffer|)
    {
      var npos := OffsetHere();
      Fill(buffer, npos);
    }

    /** The copying loop of write. */
    method Fill(buffer: seq<Byte>, npos0: nat)
      requires Stored() && InBlock(npos0) && |buffer| > 0 && m_position + |buffer| <= m_capacity
      modifies this`m_position, this`m_cur, this`blocks, arrays
      ensures Stored() && m_cur == CursorOf(m_position)
      ensures Laid(old(Flat(blocks)), old(m_position), buffer, |buffer|)
    {
      ghost var m, p := Flat(blocks), m_position;
      var npos: nat, ncap := npos0, m_cur.data.Length - npos0;
      var bpos: nat, size: nat := 0, |buffer|;
      while size > 0
        invariant Stored() && bpos + size == |buffer| && Laid(m, p, buffer, bpos)
        invariant size > 0 ==> InBlock(npos) && ncap == m_base_size - npos
        invariant size == 0 ==> m_cur == CursorOf(m_position)
      {
        var n := if ncap >= size then size else ncap;
        PutSome(buffer, bpos, n, npos, m, p);
        bpos, size := bpos + n, size - n;
        if size > 0 {
          npos := 0;
          ncap := m_cur.data.Length;
        }
      }
    }

    /** The object's answer to what the walk gathers. */
    ghost predicate Answers(g: Gathered, r: ReadResult, cur: Node?)
      reads this`nodes
    {
      if g.Fault? then r == Undefined else r == Got(g.bytes) && cur == NodeAt(g.cursor)
    }

    /** The walk that both read functions make from a block, `ncap` bytes of which they believe to be left
        behind the offset `npos`. */
    method Walk(start: Node, ghost k0: nat, npos0: nat, ncap0: nat, n: nat) returns (r: ReadResult, cur: Node?)
      requires Linked() && k0 < |nodes| && start == nodes[k0]
      ensures Answers(Scan(blocks, k0, npos0, ncap0, n), r, cur)
    {
      ghost var k: nat, g := k0, Scan(blocks, k0, npos0, ncap0, n);
      cur := start;
      var npos: nat, ncap: nat, size: nat, buffer := npos0, ncap0, n, [];
      while size > 0
        invariant k < |nodes| && cur == nodes[k]
        invariant g == Prepend(buffer, Scan(blocks, k, npos, ncap, size))
        decreases size > 0, |nodes| - k
      {
        var data := cur.data;
        var m := if ncap >= size then size else ncap;
        WalkStep(k, npos, ncap, size, buffer, g);
        if npos + m > data.Length {
          return Undefined, null;
        }
        buffer := buffer + data[npos..npos + m];
        if ncap >= size {
          if ncap == size {
            cur := cur.next;
          }
          return Got(buffer), cur;
        }
        cur := cur.next;
        if cur == null {
          return Undefined, null;
        }
        k, size, npos, ncap := k + 1, size - ncap, 0, cur.data.Length;
      }
      r := Got(buffer);
    }

    ghost function NodeAt(k: nat): Node?
      reads this`nodes
    {
      if k < |nodes| then nodes[k] else null
    }

    lemma NextIs(k: nat)
      requires Linked() && k < |nodes|
      ensures nodes[k].next == NodeAt(k + 1) && nodes[k].data[..] == blocks[k]
    {
    }

    /** One turn of the walk, on the chain. */
    lemma WalkStep(k: nat, npos: nat, ncap: nat, size: nat, buffer: seq<Byte>, g: Gathered)
      requires Linked() && k < |nodes| && size > 0 && g == Prepend(buffer, Scan(blocks, k, npos, ncap, size))
      ensures nodes[k].next == NodeAt(k + 1)
      ensures var data, m := nodes[k].data, if ncap >= size then size else ncap;
        if npos + m > data.Length then g == Fault
        else if ncap >= size then g == Copied(buffer + data[npos..npos + m], if ncap == size then k + 1 else k)
        else if k + 1 >= |nodes| then g == Fault
        else g == Prepend(buffer + data[npos..npos + m],
                          Scan(blocks, k + 1, 0, nodes[k + 1].data.Length, size - ncap))
    {
      NextIs(k);
      if k + 1 < |nodes| {
        NextIs(k + 1);
      }
      ScanStep(blocks, k, npos, ncap, size, buffer, g);
    }

    lemma BlocksDiffer(i: nat, j: nat)
      requires Stored() && i <= |nodes| && j <= |nodes|
      ensures NodeAt(i) == NodeAt(j) <==> i == j
    {
    }

    /** What both variants of read(buffer, size) share once they know how many bytes the block has left. */
    method ReadOn(npos: nat, ncap: nat, n: nat) returns (r: ReadResult)
      requires Stored() && InBlock(npos)
      modifies this`m_position, this`m_cur
      ensures var g := Scan(blocks, BlockNo(old(m_position), m_base_size), npos, ncap, n);
        Answers(g, r, m_cur) && (g.Copied? ==> m_position == old(m_position) + n)
    {
      var cur;
      r, cur := Walk(m_cur, BlockNo(m_position, m_base_size), npos, ncap, n);
      m_cur := cur;
      m_position := m_position + n;
    }

    /**
      read(buffer, size), repaired or as written on one block: out_of_range exactly when fewer bytes are there,
      and otherwise the bytes at the position, which moves behind them. Only behind the last block, where nothing
      but an empty read gets past the test, the null cursor is followed.
     */
    method Read(n: nat) returns (r: ReadResult)
      requires Valid() && Sound()
      modifies this`m_position, this`m_cur
      ensures Valid() && Contents() == old(Contents())
      ensures r == Answer(old(m_position), n)
      ensures m_position == old(m_position) + if r.Got? then n else 0
    {
      if repaired {
        r := ReadRepaired(n);
      } else {
        BlockInside(blocks, m_base_size, m_position);
        if m_position + n <= m_size {
          SliceOfPrefix(Flat(blocks), m_size, m_position, n);
        }
        r := ReadAsWritten(n);
      }
    }

    /** What a read of `n` bytes at a position is to come to. */
    ghost function Answer(pos: nat, n: nat): ReadResult
      requires Valid()
      reads this, nodes, arrays
    {
      if pos + n > m_size then OutOfRange
      else if pos == m_capacity then Undefined
      else Got(Contents()[pos..pos + n])
    }

    /** read(buffer, size), with the bytes left in the block counted from the offset. */
    method ReadRepaired(n: nat) returns (r: ReadResult)
      requires Valid()
      modifies this`m_position, this`m_cur
      ensures Valid() && Contents() == old(Contents())
      ensures r == Answer(old(m_position), n)
      ensures m_position == old(m_position) + if r.Got? then n else 0
    {
      if n > m_size - m_position {
        return OutOfRange;
      }
      BlockInside(blocks, m_base_size, m_position);
      if m_cur == null {
        return Undefined;
      }
      SliceOfPrefix(Flat(blocks), m_size, m_position, n);
      r := ReadInside(n);
    }

    method ReadInside(n: nat) returns (r: ReadResult)
      requires Valid() && m_position + n <= m_size && m_position < m_capacity
      modifies this`m_position, this`m_cur
      ensures Valid() && RightRead(r, old(m_position), n)
    {
      var npos := OffsetHere();
      ScanExact(blocks, m_base_size, m_position, n);
      BlockInside(blocks, m_base_size, m_position + n);
      var ncap := m_cur.data.Length - npos;
      r := ReadJudged(npos, ncap, n, Exactly(blocks, m_base_size, m_position, n));
    }

    /**
      read(buffer, size) as written: the bytes left in the block are counted from the position. What it gives
      and the cursor it leaves are the right ones exactly under the condition stated.
     */
    method ReadAsWritten(n: nat) returns (r: ReadResult)
      requires Valid() && m_capacity < U64
      modifies this`m_position, this`m_cur
      ensures r == OutOfRange <==> n > |old(Contents())| - old(m_position)
      ensures r == OutOfRange || old(m_position) == m_capacity ==>
        !r.Got? && m_position == old(m_position) && m_cur == old(m_cur)
      ensures r != OutOfRange ==>
        && Answers(Written(old(m_position), n), r, m_cur)
        && (RightRead(r, old(m_position), n)
            <==> old(m_position) < m_capacity && WrittenReadFits(m_base_size, old(m_position), n))
    {
      if n > m_size - m_position {
        return OutOfRange;
      }
      BlockInside(blocks, m_base_size, m_position);
      if m_cur == null {
        return Undefined;
      }
      r := ReadInsideAsWritten(n);
    }

    /** What the walk gathers that is made as written for a position. */
    ghost function Written(pos: nat, n: nat): Gathered
      requires m_base_size > 0
      reads this`blocks
    {
      BlockReads.ReadAsWritten(blocks, m_base_size, pos, BlockNo(pos, m_base_size), n)
    }

    method ReadInsideAsWritten(n: nat) returns (r: ReadResult)
      requires Valid() && m_position + n <= m_size && m_position < m_capacity < U64
      modifies this`m_position, this`m_cur
      ensures r != OutOfRange
      ensures Answers(Written(old(m_position), n), r, m_cur)
      ensures RightRead(r, old(m_position), n) <==> WrittenReadFits(m_base_size, old(m_position), n)
    {
      var npos := OffsetHere();
      var ncap := (m_cur.data.Length - m_position) % U64;
      AsWrittenReadIff(blocks, m_base_size, m_position, n);
      ScanInside(blocks, BlockNo(m_position, m_base_size), npos, ncap, n);
      r := ReadJudged(npos, ncap, n, Scan(blocks, BlockNo(m_position, m_base_size), npos, ncap, n));
    }

    /** The bytes at `pos`, and the cursor of the position behind them. */
    ghost predicate RightRead(r: ReadResult, pos: nat, n: nat)
      requires m_base_size > 0
      reads this
    {
      && pos + n <= m_size <= |Flat(blocks)|
      && r == Got(Flat(blocks)[pos..pos + n])
      && m_position == pos + n && m_cur == CursorOf(m_position)
    }

    method ReadJudged(npos: nat, ncap: nat, n: nat, ghost g: Gathered) returns (r: ReadResult)
      requires Valid() && InBlock(npos) && m_position + n <= m_size
      requires g == Scan(blocks, BlockNo(m_position, m_base_size), npos, ncap, n)
      requires g.Copied? ==> g.cursor <= |nodes|
      modifies this`m_position, this`m_cur
      ensures Stored() && r != OutOfRange && Answers(g, r, m_cur)
      ensures RightRead(r, old(m_position), n) <==> g == Exactly(blocks, m_base_size, old(m_position), n)
    {
      BlockInside(blocks, m_base_size, m_position + n);
      if g.Copied? {
        BlocksDiffer(g.cursor, BlockNo(m_position + n, m_base_size));
      }
      r := ReadOn(npos, ncap, n);
    }

    ghost predicate InCursorBlock(position: nat)
      requires m_base_size > 0
      reads this`m_position
    {
      BlockNo(position, m_base_size) == BlockNo(m_position, m_base_size)
    }

    /**
      read(buffer, size, position) const: the walk starts in the block of the cursor, at the offset that
      `position` has in its own block. That is right where the position lies in the cursor's block. A position
      beyond the size wraps the test, which then lets anything pass.
     */
    method ReadAt(n: nat, position: nat) returns (r: ReadResult)
      requires Valid()
      ensures r == if n > UnsignedMinus(m_size, position) then OutOfRange
        else if m_cur == null then Undefined
        else match Scan(blocks, BlockNo(m_position, m_base_size), Offset(position, m_base_size),
                        m_base_size - Offset(position, m_base_size), n)
          case Fault => Undefined
          case Copied(b, _) => Got(b)
      ensures m_cur != null && position + n <= m_size && InCursorBlock(position) ==>
        r == Got(Contents()[position..position + n])
    {
      if n > UnsignedMinus(m_size, position) {
        return OutOfRange;
      }
      if m_cur == null {
        return Undefined;
      }
      BlockInside(blocks, m_base_size, m_position);
      BlockNoIsQuotient(position, m_base_size);
      var npos := position % m_base_size;
      var ncap := m_cur.data.Length - npos;
      if position + n <= m_size && InCursorBlock(position) {
        ScanAt(position, n);
      }
      var cur;
      r, cur := Walk(m_cur, BlockNo(m_position, m_base_size), npos, ncap, n);
    }

    lemma ScanAt(position: nat, n: nat)
      requires Valid() && m_cur != null && position + n <= m_size && InCursorBlock(position)
      ensures var o := Offset(position, m_base_size);
        var g := Scan(blocks, BlockNo(m_position, m_base_size), o, m_base_size - o, n);
        g.Copied? && g.bytes == Contents()[position..position + n]
    {
      BlockInside(blocks, m_base_size, m_position);
      BlockInside(blocks, m_base_size, position);
      ScanExact(blocks, m_base_size, position, n);
      SliceOfPrefix(Flat(blocks), m_size, position, n);
    }

    /** to_string(): the bytes from the position to the size; nothing changes. */
    method ToString() returns (s: seq<Byte>)
      requires Valid()
      ensures s == Contents()[m_position..]
    {
      var n := GetReadSize();
      if n == 0 {
        return [];
      }
      BlockInside(blocks, m_base_size, m_position);
      var r := ReadAt(n, m_position);
      s := r.bytes;
    }

    /**
      set_position(pos): refused beyond the capacity. Moving beyond the size moves the size along: the bytes
      in between become contents with whatever values the blocks hold.
     */
    method SetPosition(pos: nat) returns (ok: bool)
      requires Valid()
      modifies this`m_position, this`m_size, this`m_cur
      ensures Valid()
      ensures ok <==> pos <= m_capacity
      ensures m_position == if ok then pos else old(m_position)
      ensures Contents() == Flat(blocks)[..if ok && pos > old(m_size) then pos else old(m_size)]
      ensures old(Contents()) <= Contents()
      ensures !ok || pos <= old(m_size) ==> Contents() == old(Contents())
    {
      if pos > m_capacity {
        return false;
      }
      m_position := pos;
      if m_position > m_size {
        m_size := m_position;
      }
      Seek(pos);
      ok := true;
    }

    /** The walk of set_position from the first block. */
    method Seek(pos: nat)
      requires Stored() && nodes[0] == m_root && pos <= m_capacity
      modifies this`m_cur
      ensures m_cur == CursorOf(pos)
    {
      m_cur := m_root;
      var left := pos;
      ghost var k := 0;
      while left > m_cur.data.Length
        invariant 0 <= k < |nodes| && m_cur == nodes[k] && 0 <= left
        invariant left <= |Flat(blocks[k..])| && BlockNo(pos, m_base_size) == k + BlockNo(left, m_base_size)
      {
        assert blocks[k..][1..] == blocks[k + 1..];
        left := left - m_cur.data.Length;
        m_cur := m_cur.next;
        k := k + 1;
      }
      if left == m_cur.data.Length {
        m_cur := m_cur.next;
      }
    }

    /** clear(): everything behind the first block goes. */
    method Clear()
      requires Valid()
      modifies Repr
      ensures Valid() && Contents() == [] && m_position == 0 && m_capacity == m_base_size
      ensures nodes == old(nodes[..1]) && Repr == old(Repr)
    {
      m_position, m_size := 0, 0;
      m_capacity := m_base_size;
      m_cur := m_root;
      m_root.next := null;
      nodes, blocks := nodes[..1], blocks[..1];
      assert blocks == [blocks[0]];
      assert Flat(blocks) == blocks[0] + Flat([]);
    }

    // ---- iovec views ----

    /** The vectors point into the blocks that the segments name. */
    ghost predicate Points(v: seq<IoVec>, segments: seq<Segment>)
      reads this`nodes
    {
      && |v| == |segments|
      && forall i :: 0 <= i < |v| ==>
        && segments[i].block < |nodes| && v[i].base == nodes[segments[i].block].data
        && v[i].offset == segments[i].offset && v[i].length == segments[i].length
    }

    lemma PointsMore(v: seq<IoVec>, segments: seq<Segment>, k: nat, o: nat, n: nat)
      requires Points(v, segments) && k < |nodes|
      ensures Points(v + [IoVec(nodes[k].data, o, n)], segments + [Segment(k, o, n)])
    {
    }

    /** The segments that the loop pushes for `n` bytes at the position. */
    ghost function Pushed(n: nat): seq<Segment>
      requires m_base_size > 0
      reads this`m_position
    {
      Segments(m_base_size, BlockNo(m_position, m_base_size), Offset(m_position, m_base_size), n, false)
    }

    /** The loop of get_read_buffers and get_write_buffers: the last vector is filled in, but the loop breaks
        before it pushes it. */
    method CollectVectors(n: nat) returns (buffers: seq<IoVec>)
      requires Valid() && n > 0 && m_position + n <= m_capacity
      ensures Points(buffers, Pushed(n))
    {
      TailFrom(blocks, m_base_size, m_position);
      BlockInside(blocks, m_base_size, m_position);
      var npos := OffsetHere();
      BlocksForFits(blocks[BlockNo(m_position, m_base_size)..], npos + n, m_base_size);
      buffers := CollectFrom(npos, n);
    }

    /** There is room for so many bytes in the blocks from one on. */
    ghost predicate Reaches(k: nat, n: nat)
      requires m_base_size > 0
      reads this`nodes
    {
      n > 0 && k + BlocksFor(n, m_base_size) <= |nodes|
    }

    lemma NextBlock(k: nat, npos: nat, len: nat)
      requires Stored() && npos < m_base_size < npos + len && Reaches(k, npos + len)
      ensures nodes[k].next == nodes[k + 1] && nodes[k + 1].data.Length == m_base_size
      ensures Reaches(k + 1, npos + len - m_base_size)
    {
      NextIs(k);
    }

    method CollectFrom(npos0: nat, n: nat) returns (buffers: seq<IoVec>)
      requires Stored() && InBlock(npos0) && n > 0
      requires Reaches(BlockNo(m_position, m_base_size), npos0 + n)
      ensures Points(buffers, Pushed(n))
    {
      var npos: nat, ncap := npos0, m_cur.data.Length - npos0;
      var cur, len: nat := m_cur, n;
      buffers := [];
      ghost var k: nat, done: seq<Segment>, all := BlockNo(m_position, m_base_size), [], Pushed(n);
      while len > 0
        invariant 0 <= k < |nodes| && 0 < len && cur == nodes[k]
        invariant 0 <= npos < m_base_size && ncap == m_base_size - npos
        invariant Reaches(k, npos + len)
        invariant Points(buffers, done) && all == done + Segments(m_base_size, k, npos, len, false)
      {
        if ncap >= len {
          break;
        }
        NextBlock(k, npos, len);
        PushStep(m_base_size, k, npos, len, done, all);
        PointsMore(buffers, done, k, npos, ncap);
        buffers := buffers + [IoVec(cur.data, npos, ncap)];
        done := done + [Segment(k, npos, ncap)];
        len := len - ncap;
        cur := cur.next;
        ncap := cur.data.Length;
        npos := 0;
        k := k + 1;
      }
    }

    /**
      get_read_buffers(buffers, len): reports as many bytes as there are, up to `len`; the vectors show a
      prefix of them that is never the whole, unless there is nothing to show.
     */
    method GetReadBuffers(len: nat) returns (total: nat, buffers: seq<IoVec>)
      requires Valid()
      ensures total == if len > |Contents()| - m_position then |Contents()| - m_position else len
      ensures Points(buffers, Pushed(total)) && Within(blocks, Pushed(total))
      ensures var shown := Covered(blocks, Pushed(total));
        && |shown| <= total && shown == Contents()[m_position..m_position + |shown|]
        && (|shown| == total <==> total == 0)
        && (shown == [] <==> Offset(m_position, m_base_size) + total <= m_base_size)
    {
      total := GetReadSize();
      if len <= total {
        total := len;
      }
      PushedMissesItsEnd(total);
      SliceOfPrefix(Flat(blocks), m_size, m_position, |Covered(blocks, Pushed(total))|);
      if total == 0 {
        return 0, [];
      }
      buffers := CollectVectors(total);
    }

    /** get_write_buffers(buffers, len): room is made for `len` bytes, but the vectors offer less than that. */
    method GetWriteBuffers(len: nat) returns (total: nat, buffers: seq<IoVec>)
      requires Valid()
      modifies this`m_cur, this`nodes, this`arrays, this`Repr, this`blocks, this`m_capacity, nodes
      ensures Valid() && old(nodes) <= nodes && fresh(Repr - old(Repr))
      ensures total == len && m_position + len <= m_capacity && Contents() == old(Contents())
      ensures Points(buffers, Pushed(len)) && Within(blocks, Pushed(len))
      ensures var offered := |Covered(blocks, Pushed(len))|; offered <= len && (offered == len <==> len == 0)
    {
      if len == 0 {
        return 0, [];
      }
      ghost var c := blocks;
      AddCapacity(len);
      FlatGrown(c, blocks);
      SliceOfPrefix(Flat(blocks), |Flat(c)|, 0, m_size);
      PushedMissesItsEnd(len);
      total := len;
      buffers := CollectVectors(len);
    }

    lemma PushedMissesItsEnd(n: nat)
      requires Valid() && m_position + n <= m_capacity
      ensures Within(blocks, Pushed(n))
      ensures var shown := Covered(blocks, Pushed(n));
        && |shown| <= n && shown == Flat(blocks)[m_position..m_position + |shown|]
        && (|shown| == n <==> n == 0)
        && (shown == [] <==> Offset(m_position, m_base_size) + n <= m_base_size)
    {
      BlockInside(blocks, m_base_size, m_position);
      if m_position < m_capacity {
        ViewMissesItsEnd(blocks, m_base_size, m_position, n);
      }
    }
  }

  lemma SliceOfPrefix(f: seq<Byte>, m: nat, p: nat, n: nat)
    requires p + n <= m <= |f|
    ensures f[..m][p..p + n] == f[p..p + n]
  {
  }

  /** Laying bytes over a memory overwrites or appends them in the part that counts as contents. */
  lemma WriteMeans(m: seq<Byte>, grown: seq<Byte>, p: nat, size: nat, b: seq<Byte>)
    requires m <= grown && p <= size <= |m| && p + |b| <= |grown|
    ensures var r := Splice(grown, p, b);
      && r[..if p + |b| > size then p + |b| else size] == Overwrite(m[..size], p, b)
      && KeptOutside(m, r, p, p + |b|)
  {
  }

  lemma SpliceMore(m: seq<Byte>, p: nat, b: seq<Byte>, i: nat, n: nat, m1: seq<Byte>, m2: seq<Byte>)
    requires p + |b| <= |m| && i + n <= |b|
    requires m1 == Splice(m, p, b[..i]) && m2 == Splice(m1, p + i, b[i..i + n])
    ensures m2 == Splice(m, p, b[..i + n])
  {
    SpliceTwice(m, p, b[..i], b[i..i + n]);
    assert b[..i] + b[i..i + n] == b[..i + n];
  }

  /** New blocks only add bytes at the end. */
  lemma FlatGrown(a: seq<seq<Byte>>, b: seq<seq<Byte>>)
    requires a <= b
    ensures Flat(a) <= Flat(b)
  {
    assert b == a + b[|a|..];
    FlatAppend(a, b[|a|..]);
  }

  /** The least number of blocks for so many bytes, by counting. */
  ghost function BlocksFor(n: nat, size: nat): (k: nat)
    requires size > 0
    ensures k == 0 <==> n == 0
  {
    if n == 0 then 0 else if n <= size then 1 else 1 + BlocksFor(n - size, size)
  }

  lemma {:induction false} BlocksForIsCeiling(n: nat, size: nat)
    requires size > 0
    ensures (n + size - 1) / size == BlocksFor(n, size)
  {
    if n == 0 {
      DivUnique(size - 1, size, 0, size - 1);
    } else if n <= size {
      DivUnique(n + size - 1, size, 1, n - 1);
    } else {
      BlocksForIsCeiling(n - size, size);
      DivMod(n - 1, size);
      DivUnique(n + size - 1, size, (n - 1) / size + 1, (n - 1) % size);
    }
  }

  method CountBlocks(missing: nat, size: nat) returns (count: nat)
    requires size > 0
    ensures count == BlocksFor(missing, size)
  {
    BlocksForIsCeiling(missing, size);
    count := (missing + size - 1) / size;
  }

  lemma {:induction false} BlocksForRoom(d: seq<seq<Byte>>, n: nat, size: nat)
    requires size > 0 && Even(d, size) && |d| == BlocksFor(n, size)
    ensures n <= |Flat(d)| < n + size
    ensures n == 0 ==> |Flat(d)| == 0
  {
    if d != [] && n > size {
      BlocksForRoom(d[1..], n - size, size);
    }
  }

  lemma {:induction false} BlocksForFits(d: seq<seq<Byte>>, n: nat, size: nat)
    requires size > 0 && Even(d, size) && n <= |Flat(d)|
    ensures BlocksFor(n, size) <= |d|
  {
    if n > size {
      BlocksForFits(d[1..], n - size, size);
    }
  }

  /** What add_capacity comes to: enough blocks and not one too many, and the position falls in the first new
      one exactly when there was no room at all. */
  lemma RoomAfterGrowth(c: seq<seq<Byte>>, d: seq<seq<Byte>>, pos: nat, missing: nat, size: nat)
    requires size > 0 && Even(d, size) && c <= d && |d| == |c| + BlocksFor(missing, size) && pos <= |Flat(c)|
    ensures |Flat(c)| + missing <= |Flat(d)| < |Flat(c)| + missing + size
    ensures missing == 0 ==> |Flat(d)| == |Flat(c)|
    ensures if pos == |Flat(c)| then BlockNo(pos, size) == |c| else BlockNo(pos, size) < |c|
  {
    var rest := d[|c|..];
    assert d == c + rest;
    FlatAppend(c, rest);
    BlocksForRoom(rest, missing, size);
    assert forall i :: 0 <= i < |c| ==> c[i] == d[i];
    BlockInside(c, size, pos);
  }

  /** What was written is there, and nothing else has changed. */
  lemma OverwriteThenLook(s: seq<Byte>, p: nat, b: seq<Byte>)
    requires p <= |s|
    ensures var t := Overwrite(s, p, b);
      && |t| == (if p + |b| > |s| then p + |b| else |s|)
      && t[p..p + |b|] == b && KeptOutside(s, t, p, p + |b|)
  {
  }

  /**
    Reading back from where a write began gives what was written, whatever was in the array before; as written,
    if it went into the one block there is. The one exception is nothing, written behind the last block.
   */
  method WriteThenRead(a: ByteArray, b: seq<Byte>) returns (r: ReadResult)
    requires a.Valid() && a.Sound() && (a.repaired || a.m_position + |b| <= a.m_capacity)
    modifies a.Repr
    ensures a.Valid() && fresh(a.Repr - old(a.Repr)) && a.m_position == old(a.m_position) + |b|
    ensures r == if b == [] && old(a.m_position) == old(a.m_capacity) then Undefined else Got(b)
  {
    var p := a.m_position;
    OverwriteThenLook(a.Contents(), p, b);
    a.Write(b);
    var ok := a.SetPosition(p);
    a.CursorInNumbers();
    r := a.Read(|b|);
  }
}
