/** acid/logger/async_logger.cpp:7-17, 57-78 and 84-114: the buffers and the logger as objects. Each method of the
    logger is what runs under m_mutex between two waits. */
module AsyncLoggers {
  import opened Chunks
  import opened Options
  import opened AsyncLog
  import AsyncLogOrder

  class LogBuffer {
    const m_data: array<Byte>
    var m_cur: nat
    ghost var lines: seq<Line>

    ghost predicate Valid()
      reads this, m_data
    {
      && m_data.Length == BUFFER_SIZE && m_cur < BUFFER_SIZE
      && m_data[..m_cur] == Text(lines)
    }

    constructor ()
      ensures Valid() && lines == [] && fresh(m_data)
    {
      m_data := new Byte[BUFFER_SIZE];
      m_cur, lines := 0, [];
    }

    method Length() returns (n: nat)
      requires Valid()
      ensures n == |Text(lines)|
    {
      n := m_cur;
    }

    /** append: a line that does not fit is dropped. */
    method Append(text: seq<Byte>, ghost serial: nat)
      requires Valid()
      modifies this`m_cur, this`lines, m_data
      ensures Valid() && lines == Put(old(lines), Line(serial, text))
    {
      if m_data.Length - m_cur > |text| {
        forall i | 0 <= i < |text| {
          m_data[m_cur + i] := text[i];
        }
        TextAppend(lines, [Line(serial, text)]);
        assert [Line(serial, text)][1..] == [];
        assert Text([Line(serial, text)]) == text;
        m_cur := m_cur + |text|;
        lines := lines + [Line(serial, text)];
        assert m_data[..m_cur] == old(m_data[..m_cur]) + text;
      }
    }

    method Reset()
      requires Valid()
      modifies this`m_cur, this`lines
      ensures Valid() && lines == []
    {
      m_cur, lines := 0, [];
    }

    ghost method Forget()
      requires Valid() && Text(lines) == []
      modifies this`lines
      ensures Valid() && lines == []
    {
      lines := [];
    }

    /** What fwrite takes from the buffer. */
    method Data() returns (b: seq<Byte>)
      requires Valid()
      ensures b == Text(lines)
    {
      b := m_data[..m_cur];
    }
  }

  method FourBuffers() returns (b: seq<LogBuffer>)
    ensures |b| == BUFFERS
    ensures forall i :: 0 <= i < BUFFERS ==> fresh(b[i]) && fresh(b[i].m_data) && b[i].Valid() && b[i].lines == []
    ensures forall i, j :: 0 <= i < j < BUFFERS ==> b[i] != b[j] && b[i].m_data != b[j].m_data
  {
    b := [];
    while |b| < BUFFERS
      invariant |b| <= BUFFERS
      invariant forall i :: 0 <= i < |b| ==> fresh(b[i]) && fresh(b[i].m_data) && b[i].Valid() && b[i].lines == []
      invariant forall i, j :: 0 <= i < j < |b| ==> b[i] != b[j] && b[i].m_data != b[j].m_data
    {
      var buffer := new LogBuffer();
      b := b + [buffer];
    }
  }

  class AsyncLogger {
    const buffers: seq<LogBuffer>
    var free_buffers: seq<nat>
    var flush_buffers: seq<nat>
    var cur_buffer: nat
    var file: seq<Byte>
    ghost var written: seq<Line>
    ghost var waiting: Option<Line>
    ghost var flusher: Flusher
    ghost var appended: nat
    ghost var accepted: seq<Line>

    /** Four buffers, each with its own memory. */
    ghost predicate Distinct()
      reads buffers, set i | 0 <= i < |buffers| :: buffers[i].m_data
    {
      && |buffers| == BUFFERS
      && (forall i :: 0 <= i < BUFFERS ==> buffers[i].Valid())
      && forall i, j :: 0 <= i < j < BUFFERS ==> buffers[i] != buffers[j] && buffers[i].m_data != buffers[j].m_data
    }

    ghost predicate Valid()
      reads this, buffers, set i | 0 <= i < |buffers| :: buffers[i].m_data
    {
      Distinct() && file == Text(written) && Inv(View())
    }

    ghost function View(): Log
      requires |buffers| == BUFFERS
      reads this, set i | 0 <= i < |buffers| :: buffers[i]`lines
    {
      Log(free_buffers, flush_buffers, cur_buffer,
          [buffers[0].lines, buffers[1].lines, buffers[2].lines, buffers[3].lines],
          written, waiting, flusher, appended, accepted)
    }

    constructor ()
      ensures Valid() && View() == Initial
    {
      var b := FourBuffers();
      buffers := b;
      free_buffers, flush_buffers, cur_buffer := [0, 1, 2, 3], [], 0;
      file, written, waiting, flusher, appended, accepted := [], [], None, Away, 0, [];
      new;
      InitialInv();
      assert View() == Initial;
    }

    /** One buffer's lines change, and no other's. */
    twostate lemma OneBuffer(i: nat)
      requires |buffers| == BUFFERS && i < BUFFERS
      requires forall j :: 0 <= j < BUFFERS && j != i ==> buffers[j].lines == old(buffers[j].lines)
      ensures View().data == old(View()).data[i := buffers[i].lines]
    {
    }

    /** cur_buffer_->append(...) */
    method PutCurrent(text: seq<Byte>, ghost serial: nat)
      requires Distinct() && cur_buffer < BUFFERS
      modifies buffers[cur_buffer], buffers[cur_buffer].m_data
      ensures Distinct()
      ensures View() == old(View()).(
        data := old(View()).data[cur_buffer := Put(old(View()).data[cur_buffer], Line(serial, text))])
    {
      buffers[cur_buffer].Append(text, serial);
      OneBuffer(cur_buffer);
    }

    method ResetBuffer(b: nat)
      requires Distinct() && b < BUFFERS
      modifies buffers[b]
      ensures Distinct() && View() == old(View()).(data := old(View()).data[b := []])
    {
      buffers[b].Reset();
      OneBuffer(b);
    }

    /** fwrite of a buffer. */
    method WriteOut(b: nat)
      requires Distinct() && b < BUFFERS && file == Text(written)
      modifies this`file, this`written
      ensures Distinct() && file == Text(written)
      ensures View() == old(View()).(file := old(View()).file + View().data[b])
    {
      var data := buffers[b].Data();
      TextAppend(written, buffers[b].lines);
      file := file + data;
      written := written + buffers[b].lines;
    }

    /** append(), up to its return or its wait for a free buffer. */
    method Append(text: seq<Byte>) returns (waits: bool)
      requires Valid() && waiting == None
      modifies this, buffers, set i | 0 <= i < |buffers| :: buffers[i].m_data
      ensures Valid() && View() == Appended(old(View()), text)
      ensures waits <==> waiting.Some?
    {
      AppendKeepsInv(View(), text);
      FirstFreeIsBuffer(View());
      waits := CountAndStore(text);
    }

    method CountAndStore(text: seq<Byte>) returns (waits: bool)
      requires Distinct() && waiting == None && |free_buffers| > 0 && cur_buffer < BUFFERS
      requires |free_buffers| > 1 ==> free_buffers[1] < BUFFERS
      modifies this`free_buffers, this`flush_buffers, this`cur_buffer, this`waiting, this`flusher
      modifies this`appended, this`accepted, buffers, set i | 0 <= i < |buffers| :: buffers[i].m_data
      ensures Distinct() && View() == Appended(old(View()), text)
      ensures waits <==> waiting.Some?
    {
      ghost var serial := appended;
      CountLine(text);
      waits := Store(text, serial);
    }

    method Store(text: seq<Byte>, ghost serial: nat) returns (waits: bool)
      requires Distinct() && waiting == None && |free_buffers| > 0 && cur_buffer < BUFFERS
      requires |free_buffers| > 1 ==> free_buffers[1] < BUFFERS
      modifies this`free_buffers, this`flush_buffers, this`cur_buffer, this`waiting, this`flusher
      modifies buffers, set i | 0 <= i < |buffers| :: buffers[i].m_data
      ensures Distinct() && View() == Stored(old(View()), Line(serial, text))
      ensures waits <==> waiting.Some?
    {
      DataAt(cur_buffer);
      var length := buffers[cur_buffer].Length();
      waits := false;
      if BUFFER_SIZE - length > |text| {
        PutCurrent(text, serial);
      } else {
        waits := Rotate(text, serial);
      }
    }

    lemma DataAt(b: nat)
      requires |buffers| == BUFFERS && b < BUFFERS
      ensures View().data[b] == buffers[b].lines
    {
    }

    /** A call of append() goes on record. */
    ghost method CountLine(text: seq<Byte>)
      requires Distinct()
      modifies this`appended, this`accepted
      ensures Distinct()
      ensures View() == Counted(old(View()), text)
    {
      if |text| < BUFFER_SIZE {
        accepted := accepted + [Line(appended, text)];
      }
      appended := appended + 1;
    }

    /** The else branch of append(). */
    method Rotate(text: seq<Byte>, ghost serial: nat) returns (waits: bool)
      requires Distinct() && waiting == None && |free_buffers| > 0 && cur_buffer < BUFFERS
      requires |free_buffers| > 1 ==> free_buffers[1] < BUFFERS
      modifies this`free_buffers, this`flush_buffers, this`cur_buffer, this`waiting, this`flusher
      modifies buffers, set i | 0 <= i < |buffers| :: buffers[i].m_data
      ensures Distinct() && (waits <==> |old(free_buffers)| == 1)
      ensures var s := old(View()).(free := old(free_buffers)[1..], flush := old(flush_buffers) + [old(cur_buffer)],
                                    flusher := Signal(old(flusher)));
        View() == if waits then s.(waiting := Some(Line(serial, text))) else Taken(s, Line(serial, text))
    {
      free_buffers := free_buffers[1..];
      flush_buffers := flush_buffers + [cur_buffer];
      flusher := Signal(flusher);
      waits := free_buffers == [];
      if waits {
        waiting := Some(Line(serial, text));
      } else {
        TakeFree(text, serial);
      }
    }

    /** The end of append(): the first free buffer becomes the current one, and the line goes there. */
    method TakeFree(text: seq<Byte>, ghost serial: nat)
      requires Distinct() && free_buffers != [] && free_buffers[0] < BUFFERS
      modifies this`cur_buffer, this`waiting, this`flusher, buffers, set i | 0 <= i < |buffers| :: buffers[i].m_data
      ensures Distinct() && View() == Taken(old(View()), Line(serial, text))
    {
      cur_buffer := free_buffers[0];
      PutCurrent(text, serial);
      waiting, flusher := None, Signal(flusher);
    }

    /** append(), woken with a free buffer there. */
    method Resume(text: seq<Byte>)
      requires Valid() && waiting.Some? && waiting.value.text == text && free_buffers != []
      modifies this`cur_buffer, this`waiting, this`flusher, buffers, set i | 0 <= i < |buffers| :: buffers[i].m_data
      ensures Valid() && View() == Taken(old(View()), old(waiting).value)
    {
      TakenKeepsInv(View(), waiting.value);
      assert (free_buffers + flush_buffers)[0] == free_buffers[0];
      TakeFree(text, waiting.value.serial);
    }

    /** run(), signalled: each queued buffer is written, emptied and freed. */
    method FlushAll()
      requires Valid()
      modifies this`file, this`written, this`flush_buffers, this`free_buffers, this`flusher, buffers
      ensures Valid() && View() == Flushed(old(View()))
      ensures flush_buffers == [] && free_buffers == old(free_buffers) + old(flush_buffers) && old(file) <= file
      ensures forall i :: 0 <= i < BUFFERS && i in old(flush_buffers) ==> buffers[i].lines == []
    {
      FlushKeepsInv(View());
      QueueIsSpread(View());
      AsyncLogOrder.FlushEmptiesTheQueue(View());
      FlushQueue();
      forall i | 0 <= i < BUFFERS ensures View().data[i] == buffers[i].lines {
        DataAt(i);
      }
      TextAppend(old(written), written[|old(written)|..]);
      assert old(written) + written[|old(written)|..] == written;
    }

    method FlushQueue()
      requires Distinct() && file == Text(written) && Queue(flush_buffers)
      modifies this`file, this`written, this`flush_buffers, this`free_buffers, this`flusher, buffers
      ensures Distinct() && file == Text(written) && View() == Flushed(old(View()))
    {
      ghost var s := View();
      while flush_buffers != []
        invariant Distinct() && file == Text(written) && Queue(flush_buffers)
        invariant Flushed(View()) == Flushed(s)
        decreases |flush_buffers|
      {
        FlushOne(View());
        QueueRest(flush_buffers);
        FlushFirst();
      }
      flusher := Away;
      FlushNothing(View(), s);
    }

    method FlushFirst()
      requires Distinct() && file == Text(written) && flush_buffers != [] && flush_buffers[0] < BUFFERS
      modifies this`file, this`written, this`flush_buffers, this`free_buffers, buffers
      ensures Distinct() && file == Text(written)
      ensures View() == FirstFlushed(old(View()))
    {
      var b := flush_buffers[0];
      WriteAndReset(b);
      flush_buffers := flush_buffers[1..];
      free_buffers := free_buffers + [b];
    }

    method WriteAndReset(b: nat)
      requires Distinct() && b < BUFFERS && file == Text(written)
      modifies this`file, this`written, buffers
      ensures Distinct() && file == Text(written)
      ensures View() == Emptied(old(View()), b)
    {
      WriteOut(b);
      ResetBuffer(b);
    }

    /** run(), timed out: the current buffer is written and emptied, unless there is nothing in it. */
    method OnTimeout()
      requires Valid()
      modifies this`file, this`written, this`flusher, buffers
      ensures Valid() && View() == TimedOut(old(View()))
      ensures cur_buffer < BUFFERS
      ensures file == old(file) + Text(old(buffers[cur_buffer].lines)) && buffers[cur_buffer].lines == []
    {
      TimeoutKeepsInv(View());
      DataAt(cur_buffer);
      TextAppend(written, buffers[cur_buffer].lines);
      flusher := Away;
      WriteCurrent();
      DataAt(cur_buffer);
    }

    method WriteCurrent()
      requires Distinct() && cur_buffer < BUFFERS && file == Text(written)
      modifies this`file, this`written, buffers
      ensures Distinct() && file == Text(written)
      ensures View() == Emptied(old(View()), cur_buffer)
    {
      var length := buffers[cur_buffer].Length();
      if length == 0 {
        ForgetEmptyLines();
      } else {
        WriteAndReset(cur_buffer);
      }
    }

    /** Lines without text are written by writing nothing. */
    ghost method ForgetEmptyLines()
      requires Distinct() && cur_buffer < BUFFERS && file == Text(written)
      requires Text(buffers[cur_buffer].lines) == []
      modifies this`written, buffers[cur_buffer]
      ensures Distinct() && file == Text(written)
      ensures View() == Emptied(old(View()), cur_buffer)
    {
      TextAppend(written, buffers[cur_buffer].lines);
      written := written + buffers[cur_buffer].lines;
      buffers[cur_buffer].Forget();
      OneBuffer(cur_buffer);
    }
  }

  lemma FirstFreeIsBuffer(s: Log)
    requires Inv(s)
    ensures |s.free| > 1 ==> s.free[1] < BUFFERS
  {
    if |s.free| > 1 {
      assert (s.free + s.flush)[1] == s.free[1];
    }
  }

  predicate Queue(q: seq<nat>) {
    NoDuplicates(q) && forall i :: 0 <= i < |q| ==> q[i] < BUFFERS
  }

  lemma QueueRest(q: seq<nat>)
    requires Queue(q) && q != []
    ensures Queue(q[1..]) && q[0] < BUFFERS
  {
    assert forall i :: 0 <= i < |q| - 1 ==> q[1..][i] == q[i + 1];
  }

  /** A buffer is written and emptied. */
  function Emptied(s: Log, b: nat): Log
    requires b < |s.data|
  {
    s.(file := s.file + s.data[b], data := s.data[b := []])
  }

  /** The first queued buffer is written, emptied and freed. */
  function FirstFlushed(s: Log): Log
    requires s.flush != [] && s.flush[0] < |s.data|
  {
    Emptied(s, s.flush[0]).(flush := s.flush[1..], free := s.free + [s.flush[0]])
  }

  lemma QueueIsSpread(s: Log)
    requires Spread(s)
    ensures Queue(s.flush)
  {
    var q := s.free + s.flush;
    forall i | 0 <= i < |s.flush| ensures s.flush[i] == q[|s.free| + i] {
    }
  }

  lemma FlushNothing(s: Log, s0: Log)
    requires s.flush == [] && s.flusher == Away && Flushed(s.(flusher := s0.flusher)) == Flushed(s0)
    ensures s == Flushed(s0)
  {
    assert s.file + [] == s.file && s.free + [] == s.free;
  }

  lemma InitialInv()
    ensures Inv(Initial)
  {
    assert Text([]) == [];
  }

  /** Writing the first queued buffer and then the rest is writing all. */
  lemma FlushOne(s: Log)
    requires s.flush != [] && s.flush[0] < |s.data| && NoDuplicates(s.flush)
    ensures Flushed(FirstFlushed(s)) == Flushed(s)
  {
    var b, rest := s.flush[0], s.flush[1..];
    forall i | 0 <= i < |rest| ensures rest[i] != b {
      assert rest[i] == s.flush[i + 1];
    }
    AsyncLogOrder.QueuedElsewhere(s.data, rest, b, []);
    assert (s.free + [b]) + rest == s.free + s.flush;
    assert (s.file + s.data[b]) + Queued(s.data, rest) == s.file + Queued(s.data, s.flush);
  }
}
