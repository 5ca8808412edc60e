/** What becomes of the appended lines: none is lost or doubled, and when their order is kept
    (acid/logger/async_logger.cpp:57-78 and 84-114); and when the appender is left waiting for good. */
module AsyncLogOrder {
  import opened Chunks
  import opened Options
  import opened AsyncLog

  /** The lines of the current buffer that are not in the queue, or the line that waits for a buffer. */
  function Front(s: Log): (r: seq<Line>)
    requires s.cur < |s.data|
  {
    match s.waiting
    case None => s.data[s.cur]
    case Some(line) => if |line.text| < BUFFER_SIZE then [line] else []
  }

  /** All lines in the order in which they would reach the file if no time-out came in between. */
  function Pending(s: Log): (r: seq<Line>)
    requires s.cur < |s.data|
  {
    s.file + Queued(s.data, s.flush) + Front(s)
  }

  lemma {:induction false} QueuedSnoc(data: seq<seq<Line>>, flush: seq<nat>, x: nat)
    requires x < |data|
    ensures Queued(data, flush + [x]) == Queued(data, flush) + data[x]
  {
    if flush == [] {
      assert Queued(data, [x][1..]) == [];
      assert Queued(data, [x]) == data[x] + [];
    } else {
      assert (flush + [x])[1..] == flush[1..] + [x];
      QueuedSnoc(data, flush[1..], x);
    }
  }

  lemma {:induction false} QueuedElsewhere(data: seq<seq<Line>>, flush: seq<nat>, x: nat, v: seq<Line>)
    requires x < |data| && x !in flush
    ensures Queued(data[x := v], flush) == Queued(data, flush)
  {
    if flush != [] {
      QueuedElsewhere(data, flush[1..], x, v);
    }
  }

  /** While the current buffer is free, no step finds it in the queue. */
  lemma FreeNotQueued(s: Log, x: nat)
    requires Spread(s) && x in s.free
    ensures x !in s.flush
  {
    var q := s.free + s.flush;
    var i :| 0 <= i < |s.free| && s.free[i] == x;
    forall j | 0 <= j < |s.flush| ensures s.flush[j] != x {
      assert q[i] == x && q[|s.free| + j] == s.flush[j];
    }
  }

  /** append() adds its line at the end, if it fits an empty buffer. */
  lemma AppendAddsLast(s: Log, text: seq<Byte>)
    requires Inv(s) && s.waiting.None?
    ensures Inv(Appended(s, text))
    ensures Pending(Appended(s, text))
         == Pending(s) + if |text| < BUFFER_SIZE then [Line(s.appended, text)] else []
  {
    AppendKeepsInv(s, text);
    var line := Line(s.appended, text);
    FreeNotQueued(s, s.cur);
    if Available(s.data[s.cur]) > |text| {
      StoredHere(s, line);
    } else {
      StoredNext(s, line);
    }
    var c, t := Counted(s, text), Stored(s, line);
    assert Stored(c, line) == t.(appended := c.appended, accepted := c.accepted);
  }

  lemma StoredHere(s: Log, line: Line)
    requires Inv(s) && s.waiting.None? && s.cur !in s.flush && Available(s.data[s.cur]) > |line.text|
    ensures Pending(Stored(s, line)) == Pending(s) + [line] && |line.text| < BUFFER_SIZE
  {
    QueuedElsewhere(s.data, s.flush, s.cur, s.data[s.cur] + [line]);
  }

  lemma StoredNext(s: Log, line: Line)
    requires Inv(s) && s.waiting.None? && Available(s.data[s.cur]) <= |line.text|
    ensures Stored(s, line).cur < BUFFERS
    ensures Pending(Stored(s, line)) == Pending(s) + if |line.text| < BUFFER_SIZE then [line] else []
  {
    var u := s.(free := s.free[1..], flush := s.flush + [s.cur]);
    RotatedIsSpread(s, u);
    var q := Queued(s.data, s.flush);
    assert Queued(u.data, u.flush) == q + s.data[s.cur] by { QueuedSnoc(s.data, s.flush, s.cur); }
    assert Pending(s) == s.file + (q + s.data[s.cur]);
    if u.free != [] {
      NextBufferEmpty(s, u, line);
      var t := Stored(s, line);
      assert t.data == s.data[t.cur := Put([], line)] && t.flush == u.flush && t.file == s.file;
    }
  }

  lemma NextBufferEmpty(s: Log, u: Log, line: Line)
    requires Inv(s) && s.waiting.None? && Spread(u) && u.free == s.free[1..] && u.free != [] && u.data == s.data
    requires u.flush == s.flush + [s.cur] && s.cur !in u.free
    ensures u.free[0] < BUFFERS && u.data[u.free[0]] == []
    ensures Queued(u.data[u.free[0] := Put([], line)], u.flush) == Queued(u.data, u.flush)
    ensures Put([], line) == if |line.text| < BUFFER_SIZE then [line] else []
  {
    var c := u.free[0];
    assert s.free[1] == c;
    assert (u.free + u.flush)[0] == c;
    PutFits([], line);
    FreeNotQueued(u, c);
    QueuedElsewhere(u.data, u.flush, c, Put([], line));
  }

  lemma ResumeKeepsOrder(s: Log)
    requires Inv(s) && s.waiting.Some? && s.free != []
    ensures Inv(Taken(s, s.waiting.value)) && Pending(Taken(s, s.waiting.value)) == Pending(s)
  {
    var line := s.waiting.value;
    TakenKeepsInv(s, line);
    var c := s.free[0];
    assert (s.free + s.flush)[0] == c;
    assert s.data[c] == [];
    PutFits([], line);
  }

  lemma FlushKeepsOrder(s: Log)
    requires Inv(s)
    ensures Inv(Flushed(s)) && Pending(Flushed(s)) == Pending(s)
  {
    FlushKeepsInv(s);
    var t := Flushed(s);
    if s.waiting.None? {
      FreeNotQueued(s, s.cur);
      ClearedAt(s.data, s.flush, s.cur);
    }
    assert Queued(t.data, []) == [];
  }

  // ---- time-outs ----

  /** The queued lines that are not in the current buffer. */
  function Ahead(s: Log): (r: seq<Line>)
    requires s.cur < |s.data|
  {
    Queued(s.data[s.cur := []], s.flush)
  }

  /** A time-out writes the current buffer only: harmless if that is empty, or nothing is queued before it. */
  predicate Harmless(s: Log)
    requires s.cur < |s.data|
  {
    s.data[s.cur] == [] || Ahead(s) == []
  }

  function Behind(s: Log): (r: seq<Line>)
    requires s.cur < |s.data|
  {
    if s.waiting.None? then [] else Front(s)
  }

  lemma TimeoutMovesForward(s: Log)
    requires Inv(s)
    ensures Pending(s) == s.file + Ahead(s) + s.data[s.cur] + Behind(s)
    ensures Pending(TimedOut(s)) == s.file + s.data[s.cur] + Ahead(s) + Behind(s)
  {
    if s.waiting.None? {
      FreeNotQueued(s, s.cur);
      QueuedElsewhere(s.data, s.flush, s.cur, []);
    } else if s.free == [] {
      assert s.free + s.flush == s.flush;
      TailQueued(s.data, s.flush, s.cur);
    }
  }

  /** The lines of the buffer at the tail of the queue come last. */
  lemma TailQueued(data: seq<seq<Line>>, flush: seq<nat>, x: nat)
    requires x < |data| && flush != [] && flush[|flush| - 1] == x && NoDuplicates(flush)
    ensures Queued(data, flush) == Queued(data[x := []], flush) + data[x]
  {
    var before := flush[..|flush| - 1];
    assert flush == before + [x] && x !in before;
    QueuedSnoc(data, before, x);
    QueuedSnoc(data[x := []], before, x);
    QueuedElsewhere(data, before, x, []);
  }

  predicate Ascending(lines: seq<Line>, below: nat) {
    && (forall i, j :: 0 <= i < j < |lines| ==> lines[i].serial < lines[j].serial)
    && forall i :: 0 <= i < |lines| ==> lines[i].serial < below
  }

  /** What every state of a run satisfies. */
  ghost predicate Sound(s: Log) {
    && Inv(s) && Ascending(s.accepted, s.appended)
    && multiset(Pending(s)) == multiset(s.accepted)
  }

  lemma SameMany(a: seq<Line>, b: seq<Line>)
    requires multiset(a) == multiset(b)
    ensures |a| == |b|
  {
    assert |multiset(a)| == |a| && |multiset(b)| == |b|;
  }

  lemma Exchange(f: seq<Line>, a: seq<Line>, c: seq<Line>, r: seq<Line>)
    ensures multiset(f + a + c + r) == multiset(f + c + a + r)
    ensures a == [] || c == [] ==> f + a + c + r == f + c + a + r
  {
    assert multiset(f + a + c + r) == multiset(f) + multiset(a) + multiset(c) + multiset(r);
    assert multiset(f + c + a + r) == multiset(f) + multiset(c) + multiset(a) + multiset(r);
    if a == [] || c == [] {
      assert a + c == c + a;
      assert f + a + c == f + (a + c) && f + c + a == f + (c + a);
    }
  }

  lemma TimeoutKeepsSound(s: Log)
    requires Sound(s)
    ensures Inv(TimedOut(s)) && Sound(TimedOut(s))
  {
    TimeoutMovesForward(s);
    TimeoutKeepsInv(s);
    ExchangedPending(s, TimedOut(s));
  }

  lemma ExchangedPending(s: Log, t: Log)
    requires s.cur < |s.data| && t.cur < |t.data|
    requires Pending(s) == s.file + Ahead(s) + s.data[s.cur] + Behind(s)
    requires Pending(t) == s.file + s.data[s.cur] + Ahead(s) + Behind(s)
    ensures multiset(Pending(t)) == multiset(Pending(s))
  {
    Exchange(s.file, Ahead(s), s.data[s.cur], Behind(s));
  }

  lemma AppendKeepsSound(s: Log, text: seq<Byte>)
    requires Sound(s) && s.waiting.None?
    ensures Sound(Appended(s, text))
    ensures Pending(s) == s.accepted ==> Pending(Appended(s, text)) == Appended(s, text).accepted
    ensures s.accepted <= Appended(s, text).accepted && Appended(s, text).file == s.file
  {
    AppendAddsLast(s, text);
    Recorded(s, text);
    SoundAfter(s, Appended(s, text), if |text| < BUFFER_SIZE then [Line(s.appended, text)] else []);
  }

  lemma Recorded(s: Log, text: seq<Byte>)
    requires s.cur < |s.data|
    ensures var t := Appended(s, text);
      && t.accepted == s.accepted + (if |text| < BUFFER_SIZE then [Line(s.appended, text)] else [])
      && t.appended == s.appended + 1 && t.file == s.file
  {
    assert s.accepted + [] == s.accepted;
  }

  lemma SoundAfter(s: Log, t: Log, more: seq<Line>)
    requires Sound(s) && Inv(t) && Pending(t) == Pending(s) + more && t.accepted == s.accepted + more
    requires t.appended == s.appended + 1
    requires |more| <= 1 && (|more| == 1 ==> more[0].serial == s.appended)
    ensures Sound(t)
  {
    BothGrow(Pending(s), s.accepted, more, s.appended);
  }

  lemma BothGrow(p: seq<Line>, a: seq<Line>, more: seq<Line>, below: nat)
    requires multiset(p) == multiset(a) && Ascending(a, below)
    requires |more| <= 1 && (|more| == 1 ==> more[0].serial == below)
    ensures multiset(p + more) == multiset(a + more) && Ascending(a + more, below + 1)
  {
    assert multiset(p + more) == multiset(p) + multiset(more);
    assert multiset(a + more) == multiset(a) + multiset(more);
  }

  /** Resuming, going to sleep and flushing leave the pending lines as they are. */
  lemma OthersKeepSound(s: Log, e: Step, t: Log)
    requires Sound(s) && Next(s, e, t) && (e.Resume? || e.Sleep? || e.Flush?)
    ensures Sound(t) && Pending(t) == Pending(s) && s.file <= t.file && t.accepted == s.accepted
  {
    match e {
      case Resume => ResumeKeepsOrder(s);
      case Sleep => assert Queued(t.data, t.flush) == Queued(s.data, s.flush);
      case Flush => FlushKeepsOrder(s);
    }
  }

  lemma NextKeepsSound(s: Log, e: Step, t: Log)
    requires Sound(s) && Next(s, e, t)
    ensures Sound(t)
    ensures s.file <= t.file && s.accepted <= t.accepted
    ensures !e.Timeout? && Pending(s) == s.accepted ==> Pending(t) == t.accepted
  {
    match e {
      case Append(text) => AppendKeepsSound(s, text);
      case Timeout => TimeoutKeepsSound(s);
      case _ => OthersKeepSound(s, e, t);
    }
  }

  /** A time-out that does no harm keeps the order; one that does puts into the file a line that an older one,
      still queued, should precede. */
  lemma TimeoutReorders(s: Log)
    requires Sound(s) && Pending(s) == s.accepted
    ensures Harmless(s) ==> Pending(TimedOut(s)) == s.accepted
    ensures !Harmless(s) ==> !(TimedOut(s).file <= s.accepted)
  {
    TimeoutMovesForward(s);
    Exchange(s.file, Ahead(s), s.data[s.cur], Behind(s));
    if !Harmless(s) {
      Misplaced(s.file, Ahead(s), s.data[s.cur], Behind(s), s.accepted, s.appended);
    }
  }

  lemma Misplaced(f: seq<Line>, a: seq<Line>, c: seq<Line>, r: seq<Line>, all: seq<Line>, below: nat)
    requires a != [] && c != [] && all == f + a + c + r && Ascending(all, below)
    ensures !(f + c <= all)
  {
    var n := |f|;
    assert all[n] == a[0] && all[n + |a|] == c[0];
    assert (f + c)[n] == c[0];
  }

  ghost predicate IsRun(states: seq<Log>, steps: seq<Step>) {
    && |states| == |steps| + 1 && states[0] == Initial
    && forall i :: 0 <= i < |steps| ==> Next(states[i], steps[i], states[i + 1])
  }

  /** No line is lost or doubled: at any time the lines in the file, in the buffers and waiting are those that
      append() was called with and that fit a buffer. */
  lemma {:induction false} LinesConserved(states: seq<Log>, steps: seq<Step>, i: nat)
    requires IsRun(states, steps) && i < |states|
    ensures Sound(states[i])
  {
    if i == 0 {
      assert Text([]) == [];
      assert Pending(Initial) == [];
    } else {
      LinesConserved(states, steps, i - 1);
      NextKeepsSound(states[i - 1], steps[i - 1], states[i]);
    }
  }

  /** At any time the two queues are a permutation of the four buffers, the current one stands where it should,
      and the others among the free ones are empty. */
  lemma RunKeepsInv(states: seq<Log>, steps: seq<Step>, i: nat)
    requires IsRun(states, steps) && i < |states|
    ensures Spread(states[i]) && Clean(states[i]) && Placed(states[i])
  {
    LinesConserved(states, steps, i);
  }

  ghost predicate HarmlessSoFar(states: seq<Log>, steps: seq<Step>, i: nat)
    requires i < |states| == |steps| + 1
  {
    forall j :: 0 <= j < i && steps[j].Timeout? && states[j].cur < |states[j].data| ==> Harmless(states[j])
  }

  /** The file holds the accepted lines in the order of their append() calls exactly as long as every time-out
      was harmless. */
  lemma {:induction false} FileInOrderIff(states: seq<Log>, steps: seq<Step>, i: nat)
    requires IsRun(states, steps) && i < |states|
    ensures Sound(states[i])
    ensures states[i].file <= states[i].accepted <==> HarmlessSoFar(states, steps, i)
    ensures HarmlessSoFar(states, steps, i) ==> Pending(states[i]) == states[i].accepted
  {
    LinesConserved(states, steps, i);
    if i == 0 {
      assert Pending(Initial) == [];
    } else {
      FileInOrderIff(states, steps, i - 1);
      var s, e, t := states[i - 1], steps[i - 1], states[i];
      NextKeepsSound(s, e, t);
      assert e.Timeout? ==> t == TimedOut(s);
      OrderStep(s, e.Timeout?, t, HarmlessSoFar(states, steps, i - 1));
      assert HarmlessSoFar(states, steps, i)
        <==> HarmlessSoFar(states, steps, i - 1) && (e.Timeout? ==> Harmless(s));
    }
  }

  lemma OrderStep(s: Log, timeout: bool, t: Log, harmless: bool)
    requires Sound(s) && Sound(t) && s.file <= t.file && s.accepted <= t.accepted
    requires if timeout then t == TimedOut(s) else Pending(s) == s.accepted ==> Pending(t) == t.accepted
    requires s.file <= s.accepted <==> harmless
    requires harmless ==> Pending(s) == s.accepted
    ensures t.file <= t.accepted <==> harmless && (timeout ==> Harmless(s))
    ensures harmless && (timeout ==> Harmless(s)) ==> Pending(t) == t.accepted
  {
    SameMany(Pending(s), s.accepted);
    if harmless && timeout {
      TimeoutReorders(s);
    }
    if t.file <= t.accepted {
      InOrderBefore(s.file, s.accepted, t.file, t.accepted);
    }
  }

  lemma InOrderBefore(f: seq<Line>, a: seq<Line>, f': seq<Line>, a': seq<Line>)
    requires f <= f' && a <= a' && |f| <= |a| && f' <= a'
    ensures f <= a
  {
  }

  /** The destructor writes the queue and then the current buffer: called while nobody waits, it completes the
      file. */
  function FinalFile(s: Log): (r: seq<Line>)
    requires s.cur < |s.data|
  {
    s.file + Queued(s.data, s.flush) + s.data[s.cur]
  }

  lemma FinalFileComplete(states: seq<Log>, steps: seq<Step>, i: nat)
    requires IsRun(states, steps) && i < |states| && states[i].waiting.None?
    ensures states[i].cur < |states[i].data|
    ensures multiset(FinalFile(states[i])) == multiset(states[i].accepted)
    ensures HarmlessSoFar(states, steps, i) ==> FinalFile(states[i]) == states[i].accepted
  {
    FileInOrderIff(states, steps, i);
  }

  // ---- what the steps do ----

  /** A flush leaves nothing queued: every buffer of the queue is empty and free, behind the others; the current one
      keeps its lines if it was not queued. What it writes is told by `LinesConserved` and `FileInOrderIff`. */
  lemma FlushEmptiesTheQueue(s: Log)
    requires Inv(s)
    ensures var t := Flushed(s);
      && t.flush == [] && t.free == s.free + s.flush && t.flusher == Away && t.cur == s.cur
      && t.waiting == s.waiting && t.accepted == s.accepted
      && |t.data| == BUFFERS
      && (forall i :: 0 <= i < BUFFERS ==> t.data[i] == if i in s.flush then [] else s.data[i])
      && s.file <= t.file
      && (forall q :: s.flush == [q] && q < BUFFERS ==> t.file == s.file + s.data[q])
  {
    forall i | 0 <= i < BUFFERS ensures Cleared(s.data, s.flush)[i] == if i in s.flush then [] else s.data[i] {
      ClearedAt(s.data, s.flush, i);
    }
    if |s.flush| == 1 {
      assert Queued(s.data, s.flush[1..]) == [];
    }
  }

  /** A time-out writes what the current buffer holds, and that alone, and empties it. */
  lemma TimeoutWritesTheCurrent(s: Log)
    requires Inv(s)
    ensures var t := TimedOut(s);
      && t.file == s.file + s.data[s.cur] && t.data[s.cur] == [] && |t.data| == |s.data|
      && (forall i :: 0 <= i < |s.data| && i != s.cur ==> t.data[i] == s.data[i])
      && t.free == s.free && t.flush == s.flush && t.waiting == s.waiting && t.flusher == Away
  {
  }

  /** Where an appended line goes: behind those of the current buffer if it fits there, into the next free buffer
      if there is one and it fits an empty one, and otherwise nowhere yet or, too long for any, nowhere at all. A
      full buffer is queued, and a flusher that sleeps is told. */
  lemma AppendGoesWhere(s: Log, text: seq<Byte>)
    requires Inv(s) && s.waiting.None?
    ensures var t, line := Appended(s, text), Line(s.appended, text);
      && t.file == s.file
      && if |Text(s.data[s.cur])| + |text| < BUFFER_SIZE then
           && t.data == s.data[s.cur := s.data[s.cur] + [line]] && t.cur == s.cur
           && t.free == s.free && t.flush == s.flush && t.waiting == None && t.flusher == s.flusher
         else
           && t.flush == s.flush + [s.cur] && t.free == s.free[1..]
           && (s.flusher == Sleeping ==> t.flusher == Signalled)
           && if |s.free| == 1 then t.waiting == Some(line) && t.data == s.data
              else
                && t.waiting == None && t.cur == s.free[1] && t.cur < BUFFERS
                && t.data == s.data[t.cur := if |text| < BUFFER_SIZE then [line] else []]
  {
    assert s.free[0] == s.cur;
    if |s.free| > 1 {
      var n := s.free[1];
      assert (s.free + s.flush)[1] == n && (s.free + s.flush)[0] == s.cur;
      assert s.data[n] == [];
      assert Text([]) == [] && [] + [Line(s.appended, text)] == [Line(s.appended, text)];
    }
  }

  /** And once a buffer is free again, the line that waited goes there alone. */
  lemma ResumeGoesWhere(s: Log)
    requires Inv(s) && s.waiting.Some? && s.free != []
    ensures var t, line := Taken(s, s.waiting.value), s.waiting.value;
      && t.waiting == None && t.cur == s.free[0] && t.cur < BUFFERS && t.free == s.free && t.flush == s.flush
      && t.data == s.data[t.cur := if |line.text| < BUFFER_SIZE then [line] else []] && t.file == s.file
      && (s.flusher == Sleeping ==> t.flusher == Signalled)
  {
    var n, line := s.free[0], s.waiting.value;
    assert (s.free + s.flush)[0] == n;
    assert s.data[n] == [];
    assert Text([]) == [] && [] + [line] == [line];
  }

  // ---- waiting for good ----

  /** The appender waits, there is no free buffer, and the flusher has not been told. */
  predicate Stuck(s: Log) {
    s.waiting.Some? && s.free == [] && s.flusher != Signalled
  }

  /** Nothing ends that: the flusher only ever times out, and the appender has signalled before it waits. */
  lemma StuckForGood(s: Log, e: Step, t: Log)
    requires Stuck(s) && Next(s, e, t)
    ensures Stuck(t)
  {
  }

  /** An append() that has to wait is stuck exactly when the flusher is not waiting at that moment, nor about to
      flush: the signal goes to nobody. */
  lemma AppenderStuckIff(s: Log, text: seq<Byte>)
    requires Inv(s) && s.waiting.None? && Appended(s, text).waiting.Some?
    ensures Stuck(Appended(s, text)) <==> s.flusher == Away
  {
  }

  /** Harm is done within four steps: a line fills the first buffer, another goes to the second while the flusher
      is not waiting, and the flusher then times out. */
  lemma TimeoutCanReorder(text: seq<Byte>) returns (states: seq<Log>, steps: seq<Step>)
    requires |text| == BUFFER_SIZE - 1
    ensures IsRun(states, steps) && |steps| == 4
    ensures states[4].file == [Line(1, text)] && states[4].accepted == [Line(0, text), Line(1, text)]
  {
    var l0, l1 := Line(0, text), Line(1, text);
    var s1 := Initial.(data := [[l0], [], [], []], appended := 1, accepted := [l0]);
    var s2 := s1.(free := [1, 2, 3], flush := [0], cur := 1, data := [[l0], [l1], [], []], appended := 2,
                  accepted := [l0, l1]);
    var s3 := s2.(flusher := Sleeping);
    var s4 := s3.(file := [l1], data := [[l0], [], [], []], flusher := Away);
    FirstLine(text, s1);
    SecondLine(text, s1, s2);
    assert TimedOut(s3) == s4;
    states := [Initial, s1, s2, s3, s4];
    steps := [Append(text), Append(text), Sleep, Timeout];
    assert Next(states[0], steps[0], states[1]);
    assert Next(states[1], steps[1], states[2]);
    assert Next(states[2], steps[2], states[3]);
    assert Next(states[3], steps[3], states[4]);
  }

  lemma FirstLine(text: seq<Byte>, t: Log)
    requires |text| == BUFFER_SIZE - 1
    requires var l := Line(0, text); t == Initial.(data := [[l], [], [], []], appended := 1, accepted := [l])
    ensures Appended(Initial, text) == t
  {
    var l := Line(0, text);
    assert Text([]) == [];
    assert Initial.data[0] + [l] == [l] && Initial.data[0 := [l]] == t.data;
    assert Counted(Initial, text).accepted == [l];
  }

  lemma SecondLine(text: seq<Byte>, s: Log, t: Log)
    requires |text| == BUFFER_SIZE - 1
    requires var l := Line(0, text); s == Initial.(data := [[l], [], [], []], appended := 1, accepted := [l])
    requires t == s.(free := [1, 2, 3], flush := [0], cur := 1, data := [[Line(0, text)], [Line(1, text)], [], []],
                     appended := 2, accepted := [Line(0, text), Line(1, text)])
    ensures Appended(s, text) == t
  {
    var l0, l1 := Line(0, text), Line(1, text);
    assert [l0][1..] == [] && Text([]) == [] && Text([l0]) == text;
    assert [0, 1, 2, 3][1..] == [1, 2, 3] && s.flush + [0] == [0];
    PutFits([], l1);
    assert s.data[1 := [l1]] == t.data;
  }
}
