/**
  The buffers of the asynchronous logger (acid/logger/async_logger.cpp:12-17, 57-78 and 84-114) with one
  appending thread and the flushing thread, as steps under the logger's mutex. The appender's wait for a free
  buffer splits append() in two; the flusher waits, is signalled, or times out.
 */
module AsyncLog {
  import opened Chunks
  import opened Options

  const BUFFERS: nat := 4
  const BUFFER_SIZE: nat := 1024 * 1024

  /** A line carries the number of its append(); the program sees only its text. */
  datatype Line = Line(serial: nat, text: seq<Byte>)

  datatype Flusher = Away | Sleeping | Signalled

  datatype Log = Log(
    free: seq<nat>,
    flush: seq<nat>,
    cur: nat,
    data: seq<seq<Line>>,
    file: seq<Line>,
    waiting: Option<Line>,  // the line of an append() that waits for a free buffer
    flusher: Flusher,
    appended: nat,          // how many lines append() has been called with
    accepted: seq<Line>)    // those of them that fit an empty buffer

  const Initial: Log := Log([0, 1, 2, 3], [], 0, [[], [], [], []], [], None, Away, 0, [])

  function Text(lines: seq<Line>): (b: seq<Byte>) {
    if lines == [] then [] else lines[0].text + Text(lines[1..])
  }

  function Available(lines: seq<Line>): (n: int) {
    BUFFER_SIZE - |Text(lines)|
  }

  /** LogBuffer::append: a line that does not fit is dropped. */
  function Put(lines: seq<Line>, line: Line): (r: seq<Line>) {
    if Available(lines) > |line.text| then lines + [line] else lines
  }

  function Signal(f: Flusher): Flusher {
    if f == Sleeping then Signalled else f
  }

  /** What the flush queue writes, in its order. */
  function Queued(data: seq<seq<Line>>, flush: seq<nat>): (r: seq<Line>) {
    if flush == [] then []
    else (if flush[0] < |data| then data[flush[0]] else []) + Queued(data, flush[1..])
  }

  function Cleared(data: seq<seq<Line>>, flush: seq<nat>): (r: seq<seq<Line>>)
    ensures |r| == |data|
    decreases |flush|
  {
    if flush == [] then data
    else Cleared(if flush[0] < |data| then data[flush[0] := []] else data, flush[1..])
  }

  datatype Step = Append(text: seq<Byte>) | Resume | Sleep | Flush | Timeout

  /** append(), up to its return or its wait. */
  function Appended(s: Log, text: seq<Byte>): Log
    requires s.cur < |s.data|
  {
    Stored(Counted(s, text), Line(s.appended, text))
  }

  function Counted(s: Log, text: seq<Byte>): Log {
    s.(appended := s.appended + 1,
       accepted := if |text| < BUFFER_SIZE then s.accepted + [Line(s.appended, text)] else s.accepted)
  }

  function Stored(s: Log, line: Line): Log
    requires s.cur < |s.data|
  {
    if Available(s.data[s.cur]) > |line.text| then
      s.(data := s.data[s.cur := s.data[s.cur] + [line]])
    else
      var u := s.(free := if s.free == [] then [] else s.free[1..], flush := s.flush + [s.cur],
                  flusher := Signal(s.flusher));
      if u.free == [] then u.(waiting := Some(line)) else Taken(u, line)
  }

  /** The next free buffer becomes the current one and gets the line. */
  function Taken(s: Log, line: Line): Log
    requires s.free != []
  {
    var c := s.free[0];
    s.(cur := c, waiting := None, flusher := Signal(s.flusher),
       data := if c < |s.data| then s.data[c := Put(s.data[c], line)] else s.data)
  }

  /** The flusher, signalled: the whole queue is written, and its buffers are free again. */
  function Flushed(s: Log): Log {
    s.(file := s.file + Queued(s.data, s.flush), data := Cleared(s.data, s.flush),
       free := s.free + s.flush, flush := [], flusher := Away)
  }

  /** The flusher, timed out: the current buffer is written and emptied, and nothing else. */
  function TimedOut(s: Log): Log
    requires s.cur < |s.data|
  {
    s.(file := s.file + s.data[s.cur], data := s.data[s.cur := []], flusher := Away)
  }

  predicate Next(s: Log, e: Step, t: Log) {
    match e
    case Append(text) => s.waiting == None && s.cur < |s.data| && t == Appended(s, text)
    case Resume => s.waiting.Some? && s.free != [] && t == Taken(s, s.waiting.value)
    case Sleep => s.flusher == Away && t == s.(flusher := Sleeping)
    case Flush => s.flusher == Signalled && t == Flushed(s)
    case Timeout => s.flusher == Sleeping && s.cur < |s.data| && t == TimedOut(s)
  }

  // ---- what every step keeps ----

  predicate NoDuplicates(q: seq<nat>) {
    forall i, j :: 0 <= i < j < |q| ==> q[i] != q[j]
  }

  /** The four buffers are spread over the two queues, each in one place. */
  predicate Spread(s: Log) {
    && |s.data| == BUFFERS
    && |s.free| + |s.flush| == BUFFERS
    && (forall i :: 0 <= i < BUFFERS ==> (s.free + s.flush)[i] < BUFFERS)
    && NoDuplicates(s.free + s.flush)
  }

  /** Every buffer but the current one is empty when it is free. */
  predicate Clean(s: Log)
    requires |s.data| == BUFFERS
  {
    forall i :: 0 <= i < |s.free| && s.free[i] < BUFFERS && s.free[i] != s.cur ==> s.data[s.free[i]] == []
  }

  /** The current buffer is the head of the free ones, or, while the appender waits for one, the tail of the
      flush queue, and after that flush an empty one among the free. */
  predicate Placed(s: Log)
    requires |s.data| == BUFFERS
  {
    && s.cur < BUFFERS
    && match s.waiting
       case None => s.free != [] && s.cur == s.free[0]
       case Some(_) =>
         if s.free == [] then s.flush != [] && s.flush[|s.flush| - 1] == s.cur
         else s.flush == [] && s.data[s.cur] == []
  }

  predicate Inv(s: Log) {
    && Spread(s) && Placed(s) && Clean(s)
    && forall i :: 0 <= i < BUFFERS ==> |Text(s.data[i])| < BUFFER_SIZE
  }

  lemma {:induction false} TextAppend(a: seq<Line>, b: seq<Line>)
    ensures Text(a + b) == Text(a) + Text(b)
  {
    if a == [] {
      assert a + b == b;
    } else {
      assert (a + b)[1..] == a[1..] + b;
      TextAppend(a[1..], b);
    }
  }

  lemma PutFits(lines: seq<Line>, line: Line)
    requires |Text(lines)| < BUFFER_SIZE
    ensures |Text(Put(lines, line))| < BUFFER_SIZE
    ensures lines == [] ==> Put(lines, line) == if |line.text| < BUFFER_SIZE then [line] else []
  {
    TextAppend(lines, [line]);
    assert Text([line]) == line.text + Text([line][1..]);
  }

  lemma {:induction false} ClearedAt(data: seq<seq<Line>>, flush: seq<nat>, i: nat)
    requires i < |data|
    ensures Cleared(data, flush)[i] == if i in flush then [] else data[i]
    decreases |flush|
  {
    if flush != [] {
      ClearedAt(if flush[0] < |data| then data[flush[0] := []] else data, flush[1..], i);
    }
  }

  lemma TakenKeepsInv(s: Log, line: Line)
    requires s.cur < BUFFERS && Spread(s) && Clean(s) && s.free != [] && (s.cur !in s.free || s.data[s.cur] == [])
    requires forall i :: 0 <= i < BUFFERS ==> |Text(s.data[i])| < BUFFER_SIZE
    ensures Inv(Taken(s, line))
  {
    var c, t := s.free[0], Taken(s, line);
    assert (s.free + s.flush)[0] == c;
    PutFits(s.data[c], line);
    forall i | 0 <= i < |t.free| && t.free[i] < BUFFERS && t.free[i] != c ensures t.data[t.free[i]] == [] {
      assert s.free[i] in s.free;
    }
  }

  lemma RotatedIsSpread(s: Log, t: Log)
    requires Inv(s) && s.waiting.None? && t.data == s.data
    requires t.free == s.free[1..] && t.flush == s.flush + [s.cur]
    ensures Spread(t) && s.cur !in t.free
  {
    var q, q' := s.free + s.flush, t.free + t.flush;
    assert q == [s.cur] + (s.free[1..] + s.flush);
    assert q' == (s.free[1..] + s.flush) + [s.cur];
    forall i | 0 <= i < BUFFERS ensures q'[i] < BUFFERS {
      assert q'[i] == if i < BUFFERS - 1 then q[i + 1] else q[0];
    }
    forall i, j | 0 <= i < j < |q'| ensures q'[i] != q'[j] {
      assert q'[i] == q[i + 1];
      assert q'[j] == if j < BUFFERS - 1 then q[j + 1] else q[0];
    }
    forall i | 0 <= i < |t.free| ensures t.free[i] != s.cur {
      assert q[i + 1] == t.free[i] && q[0] == s.cur;
    }
  }

  lemma AppendKeepsInv(s: Log, text: seq<Byte>)
    requires Inv(s) && s.waiting.None?
    ensures Inv(Appended(s, text))
  {
    var line := Line(s.appended, text);
    if Available(s.data[s.cur]) > |text| {
      PutFits(s.data[s.cur], line);
    } else {
      var t := s.(appended := s.appended + 1,
                  accepted := if |text| < BUFFER_SIZE then s.accepted + [line] else s.accepted,
                  free := s.free[1..], flush := s.flush + [s.cur], flusher := Signal(s.flusher));
      RotatedIsSpread(s, t);
      if t.free != [] {
        TakenKeepsInv(t, line);
        assert Appended(s, text) == Taken(t, line);
      } else {
        assert Appended(s, text) == t.(waiting := Some(line));
      }
    }
  }

  lemma FlushKeepsInv(s: Log)
    requires Inv(s)
    ensures Inv(Flushed(s))
  {
    var t := Flushed(s);
    assert t.free + t.flush == s.free + s.flush;
    forall i | 0 <= i < BUFFERS ensures t.data[i] == if i in s.flush then [] else s.data[i] {
      ClearedAt(s.data, s.flush, i);
    }
    forall i | 0 <= i < |t.free| && t.free[i] < BUFFERS && t.free[i] != t.cur ensures t.data[t.free[i]] == [] {
      if i < |s.free| {
        assert t.free[i] == s.free[i];
      } else {
        assert t.free[i] == s.flush[i - |s.free|];
      }
    }
  }

  lemma TimeoutKeepsInv(s: Log)
    requires Inv(s)
    ensures Inv(TimedOut(s))
  {
    assert Text([]) == [];
  }

  lemma NextKeepsInv(s: Log, e: Step, t: Log)
    requires Inv(s) && Next(s, e, t)
    ensures Inv(t)
  {
    match e {
      case Append(text) => AppendKeepsInv(s, text);
      case Resume =>
        TakenKeepsInv(s, s.waiting.value);
      case Sleep =>
      case Flush => FlushKeepsInv(s);
      case Timeout => TimeoutKeepsInv(s);
    }
  }
}
