/**
 * The double-buffered log of AsyncFileAppender.cc. Every critical section, and every piece of work the flush
 * thread does between two of them, is one method; an interleaving of appenders and flusher is a sequence of calls.
 */
module AsyncLog {
  import opened Options
  import Memory

  /** kFixedBufferSize. */
  const CAPACITY: nat := 4194304

  /** The bytes of a buffer after an append: a message that does not fit is dropped. */
  function Filled(bytes: seq<bv8>, msg: seq<bv8>): seq<bv8>
  {
    if |bytes| + |msg| <= CAPACITY then bytes + msg else bytes
  }

  class FixedBuffer {
    const data: array<bv8>
    var cur: nat

    ghost predicate Valid()
      reads this
    {
      data.Length == CAPACITY && cur <= CAPACITY
    }

    ghost function Bytes(): seq<bv8>
      requires Valid()
      reads this, data
    {
      data[..cur]
    }

    constructor ()
      ensures Valid() && fresh(data) && Bytes() == []
    {
      data := new bv8[CAPACITY];
      cur := 0;
    }

    method AvailableBytes() returns (n: nat)
      requires Valid()
      ensures n == CAPACITY - |Bytes()|
    {
      n := CAPACITY - cur;
    }

    method Append(msg: seq<bv8>)
      requires Valid()
      modifies this, data
      ensures Valid() && Bytes() == Filled(old(Bytes()), msg)
    {
      var available := AvailableBytes();
      if available >= |msg| {
        Memory.Copy(data, cur, msg);
        cur := cur + |msg|;
      }
    }

    method Reset()
      requires Valid()
      modifies this
      ensures Valid() && Bytes() == []
    {
      cur := 0;
    }
  }

  /** What is done to a buffer. */
  datatype BufferOp = AppendTo(msg: seq<bv8>) | ResetIt

  /** The same on the value of a buffer. */
  function BytesAfter(ops: seq<BufferOp>): seq<bv8>
  {
    if ops == [] then []
    else
      match ops[|ops| - 1]
      case AppendTo(msg) => Filled(BytesAfter(ops[..|ops| - 1]), msg)
      case ResetIt => []
  }

  /** Over every life of a buffer the array holds the value: appends that fit are kept, and a reset empties it. */
  method BufferLife(ops: seq<BufferOp>) returns (bytes: seq<bv8>)
    ensures bytes == BytesAfter(ops)
  {
    hide Filled;
    var buffer := new FixedBuffer();
    for i := 0 to |ops|
      invariant fresh(buffer) && fresh(buffer.data) && buffer.Valid()
      invariant buffer.Bytes() == BytesAfter(ops[..i])
    {
      assert ops[..i + 1][..i] == ops[..i];
      match ops[i] {
        case AppendTo(msg) =>
          buffer.Append(msg);
        case ResetIt =>
          buffer.Reset();
      }
    }
    assert ops[..|ops|] == ops;
    bytes := buffer.data[..buffer.cur];
  }

  /** A buffer as the appender owns it: which one, and its value as BytesAfter has it. */
  datatype Buffer = Buffer(id: nat, bytes: seq<bv8>)

  /** A BufferPtr: moving out of it leaves None. */
  type BufferPtr = Option<Buffer>

  function Ids(p: BufferPtr): multiset<nat>
  {
    if p.None? then multiset{} else multiset{p.value.id}
  }

  ghost function IdsOf(s: seq<Buffer>): multiset<nat>
  {
    if s == [] then multiset{} else multiset{s[0].id} + IdsOf(s[1..])
  }

  /** The contents of buffers, in order. */
  function Contents(s: seq<Buffer>): seq<bv8>
  {
    if s == [] then [] else s[0].bytes + Contents(s[1..])
  }

  lemma {:induction false} Push(s: seq<Buffer>, b: Buffer)
    ensures Contents(s + [b]) == Contents(s) + b.bytes
    ensures IdsOf(s + [b]) == IdsOf(s) + multiset{b.id}
  {
    if s == [] {
      assert [b][1..] == [];
      assert s + [b] == [b];
    } else {
      assert (s + [b])[1..] == s[1..] + [b];
      Push(s[1..], b);
    }
  }

  lemma NextBuffer(s: seq<Buffer>, k: nat)
    requires k < |s|
    ensures Contents(s[k..]) == s[k].bytes + Contents(s[k + 1..])
  {
    assert s[k..][1..] == s[k + 1..];
  }

  lemma NoBuffers()
    ensures Contents([]) == []
  {
  }

  /** Each of the buffers in m is there once, and was made before buffer number next. */
  ghost predicate AllOnce(m: multiset<nat>, next: nat)
  {
    forall id | id in m :: m[id] == 1 && id < next
  }

  lemma OneMore(m: multiset<nat>, next: nat)
    requires AllOnce(m, next)
    ensures AllOnce(m + multiset{next}, next + 1)
  {
    var m' := m + multiset{next};
    forall id | id in m'
      ensures m'[id] == 1 && id < next + 1
    {
      assert next !in m;
      if id != next {
        assert id in m;
      }
    }
  }

  lemma Fewer(m: multiset<nat>, m': multiset<nat>, next: nat)
    requires AllOnce(m, next) && m' <= m
    ensures AllOnce(m', next)
  {
    forall id | id in m'
      ensures m'[id] == 1 && id < next
    {
      assert id in m;
    }
  }

  /** The buffers some pointer owns, with multiplicity. */
  ghost function Live(cur: BufferPtr, next: BufferPtr, full: seq<Buffer>,
                      tmp1: BufferPtr, tmp2: BufferPtr, toWrite: seq<Buffer>): multiset<nat>
  {
    Ids(cur) + Ids(next) + IdsOf(full) + Ids(tmp1) + Ids(tmp2) + IdsOf(toWrite)
  }

  // How each step moves ownership around.

  lemma FirstBuffers()
    ensures AllOnce(Live(Some(Buffer(0, [])), Some(Buffer(1, [])), [], Some(Buffer(2, [])), Some(Buffer(3, [])), []), 4)
  {
    assert Live(Some(Buffer(0, [])), Some(Buffer(1, [])), [], Some(Buffer(2, [])), Some(Buffer(3, [])), [])
           == multiset{0, 1, 2, 3};
  }

  lemma RefillBuffer(b: Buffer, bytes: seq<bv8>, next: BufferPtr, full: seq<Buffer>,
                     tmp1: BufferPtr, tmp2: BufferPtr, w: seq<Buffer>)
    ensures Live(Some(b.(bytes := bytes)), next, full, tmp1, tmp2, w) == Live(Some(b), next, full, tmp1, tmp2, w)
  {
  }

  /** Conservation: the file, the unwritten, the full and the current buffers make up the log. */
  ghost predicate Balanced(file: seq<bv8>, unwritten: seq<bv8>, full: seq<bv8>, cur: seq<bv8>, log: seq<bv8>)
  {
    file + unwritten + full + cur == log
  }

  lemma BalancedAppend(file: seq<bv8>, u: seq<bv8>, f: seq<bv8>, b: seq<bv8>, m: seq<bv8>, log: seq<bv8>)
    requires Balanced(file, u, f, b, log)
    ensures Balanced(file, u, f, b + m, log + m) && Balanced(file, u, f + b, m, log + m)
  {
    assert file + u + f + (b + m) == file + u + f + b + m;
    assert file + u + (f + b) + m == file + u + f + b + m;
  }

  lemma BalancedSwap(file: seq<bv8>, f: seq<bv8>, b: seq<bv8>, log: seq<bv8>)
    requires Balanced(file, [], f, b, log)
    ensures Balanced(file, f + b, [], [], log)
  {
    assert file + (f + b) + [] + [] == file + [] + f + b;
  }

  lemma BalancedWrite(file: seq<bv8>, w: seq<bv8>, u: seq<bv8>, f: seq<bv8>, b: seq<bv8>, log: seq<bv8>)
    requires Balanced(file, w + u, f, b, log)
    ensures Balanced(file + w, u, f, b, log)
  {
    assert file + w + u == file + (w + u);
  }

  lemma AllWritten(file: seq<bv8>, log: seq<bv8>)
    requires Balanced(file, [], [], [], log)
    ensures file == log
  {
    assert file + [] + [] + [] == file;
  }

  lemma FilePrefix(file: seq<bv8>, u: seq<bv8>, f: seq<bv8>, c: seq<bv8>, log: seq<bv8>)
    requires Balanced(file, u, f, c, log)
    ensures file + (u + f + c) == log
  {
  }

  lemma SwitchBuffer(b: Buffer, next: Buffer, full: seq<Buffer>, tmp1: BufferPtr, tmp2: BufferPtr, w: seq<Buffer>)
    ensures Live(Some(next), None, full + [b], tmp1, tmp2, w) == Live(Some(b), Some(next), full, tmp1, tmp2, w)
    ensures Live(Some(next), None, full + [b], tmp1, tmp2, w)
            == Live(Some(b), None, full, tmp1, tmp2, w) + multiset{next.id}
  {
    Push(full, b);
  }

  lemma SwapBuffers(cur: Buffer, next: BufferPtr, full: seq<Buffer>, tmp1: BufferPtr, tmp2: BufferPtr)
    ensures next.Some? ==>
              Live(tmp1, next, [], None, tmp2, full + [cur]) == Live(Some(cur), next, full, tmp1, tmp2, [])
    ensures next.None? ==>
              Live(tmp1, tmp2, [], None, None, full + [cur]) == Live(Some(cur), next, full, tmp1, tmp2, [])
  {
    Push(full, cur);
  }

  lemma ReuseBuffers(cur: BufferPtr, next: BufferPtr, full: seq<Buffer>, tmp2: BufferPtr, w: seq<Buffer>)
    requires w != [] && (tmp2.None? ==> |w| >= 2)
    ensures var tmp2' := if tmp2.None? then Some(w[1].(bytes := [])) else tmp2;
            Live(cur, next, full, Some(w[0].(bytes := [])), tmp2', []) <= Live(cur, next, full, None, tmp2, w)
  {
    assert IdsOf(w) == multiset{w[0].id} + IdsOf(w[1..]);
    if |w| >= 2 {
      assert IdsOf(w[1..]) == multiset{w[1].id} + IdsOf(w[1..][1..]);
    }
  }

  /** What a message adds to the log: nothing when it is longer than a whole buffer. */
  function Accepted(msg: seq<bv8>): seq<bv8>
  {
    if |msg| <= CAPACITY then msg else []
  }

  /** Where the flush thread is: at the loop test, past it and waiting for the lock, writing, or gone. */
  datatype Phase = AtHead | Waiting | Writing(done: nat) | Exited

  datatype Action = LogMessage(msg: seq<bv8>) | FlushThreadStep | StopAppender

  // ------------------------------------------------- what a schedule must lead to

  /** The log as a pipe of byte strings: what the file holds, and what is on its way there. */
  datatype Pipe = Pipe(cur: seq<bv8>, full: seq<seq<bv8>>, toWrite: seq<seq<bv8>>, file: seq<bv8>, phase: Phase, stop: bool)

  const EMPTY := Pipe([], [], [], [], AtHead, false)

  /** A message of up to 4 MiB goes behind what is there, in a buffer of its own if it does not fit. */
  function Take(p: Pipe, msg: seq<bv8>): Pipe
  {
    if |p.cur| + |msg| <= 4194304 then p.(cur := p.cur + msg)
    else p.(full := p.full + [p.cur], cur := if |msg| <= 4194304 then msg else [])
  }

  /** The next step of the flush thread from each of its places. */
  function Flush(p: Pipe): Pipe
  {
    match p.phase
    case AtHead => p.(phase := if p.stop then Exited else Waiting)
    case Waiting => p.(toWrite := p.full + [p.cur], full := [], cur := [], phase := Writing(0))
    case Writing(done) =>
      if done < |p.toWrite| then p.(file := p.file + p.toWrite[done], phase := Writing(done + 1))
      else p.(toWrite := [], phase := AtHead)
    case Exited => p
  }

  function Step(p: Pipe, a: Action): Pipe
  {
    match a
    case LogMessage(msg) => Take(p, msg)
    case FlushThreadStep => Flush(p)
    case StopAppender => p.(stop := true)
  }

  function Reached(schedule: seq<Action>): Pipe
  {
    if schedule == [] then EMPTY else Step(Reached(schedule[..|schedule| - 1]), schedule[|schedule| - 1])
  }

  /** The contents of the buffers of a queue. */
  function BytesOf(s: seq<Buffer>): (b: seq<seq<bv8>>)
    ensures |b| == |s|
  {
    seq(|s|, i requires 0 <= i < |s| => s[i].bytes)
  }

  class AsyncFileAppender {
    var curBuffer: BufferPtr
    var nextBuffer: BufferPtr
    var fulledBuffers: seq<Buffer>
    var stop: bool
    var logFile: seq<bv8>
    var nextId: nat

    // The locals of FlushThread.
    var tmpBuffer1: BufferPtr
    var tmpBuffer2: BufferPtr
    var buffersToWrite: seq<Buffer>
    var phase: Phase

    /** All accepted messages, in the order their appenders held the lock. */
    ghost var log: seq<bv8>

    /** No buffer is owned twice. */
    ghost predicate Separated()
      reads this
    {
      AllOnce(Live(curBuffer, nextBuffer, fulledBuffers, tmpBuffer1, tmpBuffer2, buffersToWrite), nextId)
    }

    /** Which pointers may be null, and when. */
    ghost predicate Owned()
      reads this
    {
      && curBuffer.Some?
      && (nextBuffer.None? ==> fulledBuffers != [])
      && match phase
         case AtHead => tmpBuffer1.Some? && tmpBuffer2.Some? && buffersToWrite == []
         case Waiting => tmpBuffer1.Some? && tmpBuffer2.Some? && buffersToWrite == []
         case Writing(done) =>
           && tmpBuffer1.None?
           && done <= |buffersToWrite| && buffersToWrite != []
           && (tmpBuffer2.None? ==> |buffersToWrite| >= 2)
         case Exited => buffersToWrite == [] && stop
    }

    ghost predicate SparesEmpty()
      reads this
    {
      && (nextBuffer.Some? ==> nextBuffer.value.bytes == [])
      && (tmpBuffer1.Some? ==> tmpBuffer1.value.bytes == [])
      && (tmpBuffer2.Some? ==> tmpBuffer2.value.bytes == [])
    }

    /** What the flusher has taken over and not yet written. */
    function Unwritten(): seq<bv8>
      requires Owned()
      reads this
    {
      if phase.Writing? then Contents(buffersToWrite[phase.done..]) else []
    }

    ghost predicate Valid()
      reads this
    {
      && Separated() && Owned() && SparesEmpty()
      && Balanced(logFile, Unwritten(), Contents(fulledBuffers), curBuffer.value.bytes, log)
    }

    /** The appender as a pipe. */
    ghost function View(): Pipe
      requires Owned()
      reads this
    {
      Pipe(curBuffer.value.bytes, BytesOf(fulledBuffers), BytesOf(buffersToWrite), logFile, phase, stop)
    }

    constructor ()
      ensures Valid() && log == [] && logFile == [] && phase == AtHead && !stop
      ensures View() == EMPTY
    {
      hide AllOnce, Live;
      FirstBuffers();
      curBuffer, nextBuffer, fulledBuffers := Some(Buffer(0, [])), Some(Buffer(1, [])), [];
      tmpBuffer1, tmpBuffer2, buffersToWrite := Some(Buffer(2, [])), Some(Buffer(3, [])), [];
      nextId := 4;
      phase, stop, logFile, log := AtHead, false, [], [];
    }

    method NewBuffer() returns (p: BufferPtr)
      modifies `nextId
      ensures p == Some(Buffer(old(nextId), [])) && nextId == old(nextId) + 1
    {
      p := Some(Buffer(nextId, []));
      nextId := nextId + 1;
    }

    /** cur_buffer->Append; the message fits, or the buffer is empty. */
    method Fill(msg: seq<bv8>)
      requires Valid() && (|curBuffer.value.bytes| + |msg| <= CAPACITY || curBuffer.value.bytes == [])
      modifies `curBuffer, `log
      ensures Valid() && log == old(log) + Accepted(msg)
      ensures curBuffer.value.bytes == Filled(old(curBuffer).value.bytes, msg)
    {
      hide AllOnce, Live, Contents, Balanced;
      var b := curBuffer.value;
      var bytes := Filled(b.bytes, msg);
      assert bytes == b.bytes + Accepted(msg);
      BalancedAppend(logFile, Unwritten(), Contents(fulledBuffers), b.bytes, Accepted(msg), log);
      RefillBuffer(b, bytes, nextBuffer, fulledBuffers, tmpBuffer1, tmpBuffer2, buffersToWrite);
      curBuffer := Some(b.(bytes := bytes));
      log := log + Accepted(msg);
    }

    /** The current buffer becomes a full one; the next or a new one takes its place. */
    method SwitchToNext()
      requires Valid()
      modifies `curBuffer, `nextBuffer, `fulledBuffers, `nextId
      ensures Valid() && curBuffer.value.bytes == [] && nextBuffer == None
      ensures fulledBuffers == old(fulledBuffers) + [old(curBuffer).value]
    {
      hide AllOnce, Live, Contents, Balanced;
      var b, next := curBuffer.value, nextBuffer;
      BalancedAppend(logFile, Unwritten(), Contents(fulledBuffers), b.bytes, [], log);
      Push(fulledBuffers, b);
      if next.None? {
        OneMore(Live(curBuffer, nextBuffer, fulledBuffers, tmpBuffer1, tmpBuffer2, buffersToWrite), nextId);
        next := NewBuffer();
      }
      SwitchBuffer(b, next.value, fulledBuffers, tmpBuffer1, tmpBuffer2, buffersToWrite);
      fulledBuffers := fulledBuffers + [b];
      curBuffer := next;
      nextBuffer := None;
      assert log + [] == log;
    }

    /** An appender, under the lock. */
    method Append(msg: seq<bv8>)
      requires Valid()
      modifies `curBuffer, `nextBuffer, `fulledBuffers, `nextId, `log
      ensures Valid() && log == old(log) + Accepted(msg)
      ensures Unwritten() == old(Unwritten())
      ensures var fits := |old(curBuffer).value.bytes| + |msg| <= CAPACITY;
              && fulledBuffers == old(fulledBuffers) + (if fits then [] else [old(curBuffer).value])
              && curBuffer.value.bytes == Filled(if fits then old(curBuffer).value.bytes else [], msg)
              && (nextBuffer == if fits then old(nextBuffer) else None)
    {
      hide AllOnce, Live, Contents, Balanced;
      if CAPACITY - |curBuffer.value.bytes| >= |msg| {
        Fill(msg);
        return;
      }
      SwitchToNext();
      Fill(msg);
    }

    /** The loop test of the flush thread. Appenders, and Stop, may come in before it has the lock. */
    method Enter()
      requires Valid() && phase == AtHead && !stop
      modifies `phase
      ensures Valid() && phase == Waiting
    {
      hide AllOnce, Live, Contents, Balanced;
      phase := Waiting;
    }

    /** The critical section of the flush thread, after a wait of any length. */
    method Swap()
      requires Valid() && phase == Waiting
      modifies `curBuffer, `nextBuffer, `fulledBuffers, `tmpBuffer1, `tmpBuffer2, `buffersToWrite, `phase
      ensures Valid()
      ensures phase == Writing(0) && fulledBuffers == [] && curBuffer.value.bytes == []
      ensures buffersToWrite == old(fulledBuffers) + [old(curBuffer).value]
    {
      hide AllOnce, Live, Contents, Balanced;
      BalancedSwap(logFile, Contents(fulledBuffers), curBuffer.value.bytes, log);
      Push(fulledBuffers, curBuffer.value);
      SwapBuffers(curBuffer.value, nextBuffer, fulledBuffers, tmpBuffer1, tmpBuffer2);
      NoBuffers();
      var full := fulledBuffers + [curBuffer.value];
      assert full[0..] == full;
      curBuffer, tmpBuffer1 := tmpBuffer1, None;
      if nextBuffer.None? {
        nextBuffer, tmpBuffer2 := tmpBuffer2, None;
      }
      fulledBuffers, buffersToWrite := buffersToWrite, full;
      phase := Writing(0);
    }

    /** One turn of the write loop, outside the lock. */
    method WriteOne()
      requires Valid() && phase.Writing? && phase.done < |buffersToWrite|
      modifies `logFile, `phase
      ensures Valid()
      ensures logFile == old(logFile) + buffersToWrite[old(phase.done)].bytes
      ensures phase == Writing(old(phase.done) + 1)
    {
      hide AllOnce, Live, Contents, Balanced;
      var done := phase.done;
      NextBuffer(buffersToWrite, done);
      BalancedWrite(logFile, buffersToWrite[done].bytes, Contents(buffersToWrite[done + 1..]),
                    Contents(fulledBuffers), curBuffer.value.bytes, log);
      logFile := logFile + buffersToWrite[done].bytes;
      phase := Writing(done + 1);
    }

    /** After the write loop: both spares are refilled; index 1 is read without a check. */
    method Reuse()
      requires Valid() && phase == Writing(|buffersToWrite|)
      modifies `tmpBuffer1, `tmpBuffer2, `buffersToWrite, `phase
      ensures Valid() && phase == AtHead
    {
      hide AllOnce, Live, Contents, Balanced;
      ReuseBuffers(curBuffer, nextBuffer, fulledBuffers, tmpBuffer2, buffersToWrite);
      NoBuffers();
      assert buffersToWrite[|buffersToWrite|..] == [];
      if |buffersToWrite| > 2 {
        buffersToWrite := buffersToWrite[..2];
      }
      if tmpBuffer1.None? {
        tmpBuffer1 := Some(buffersToWrite[0].(bytes := []));
      }
      if tmpBuffer2.None? {
        tmpBuffer2 := Some(buffersToWrite[1].(bytes := []));
      }
      buffersToWrite := [];
      phase := AtHead;
      Fewer(old(Live(curBuffer, nextBuffer, fulledBuffers, tmpBuffer1, tmpBuffer2, buffersToWrite)),
            Live(curBuffer, nextBuffer, fulledBuffers, tmpBuffer1, tmpBuffer2, buffersToWrite), nextId);
    }

    /** The loop test of the flush thread, once Stop was called. */
    method Leave()
      requires Valid() && phase == AtHead && stop
      modifies `phase
      ensures Valid() && phase == Exited
    {
      hide AllOnce, Live, Contents, Balanced;
      phase := Exited;
    }

    method Stop()
      requires Valid()
      modifies `stop
      ensures Valid() && stop
    {
      hide AllOnce, Live, Contents, Balanced;
      stop := true;
    }

    /** The next step of the flush thread, wherever it is. */
    method FlushStep()
      requires Valid()
      modifies this
      ensures Valid() && log == old(log) && stop == old(stop)
      ensures old(logFile) <= logFile
      ensures View() == Flush(old(View()))
    {
      hide AllOnce, Live, Contents, Balanced;
      if phase == AtHead && !stop {
        Enter();
      } else if phase == Waiting {
        Swap();
      } else if phase == AtHead {
        Leave();
      } else if phase.Writing? && phase.done < |buffersToWrite| {
        WriteOne();
      } else if phase.Writing? {
        Reuse();
      }
    }

    /** The rest of a turn of the loop of FlushThread writes everything logged before its critical section. */
    method FlushRound()
      requires Valid() && phase == Waiting
      modifies this
      ensures Valid() && phase == AtHead && log == old(log) && stop == old(stop)
      ensures logFile == log
    {
      hide AllOnce, Live, Contents, Balanced;
      Swap();
      WriteLoop();
      assert buffersToWrite[|buffersToWrite|..] == [];
      NoBuffers();
      AllWritten(logFile, log);
      Reuse();
    }

    /** The flush thread comes to its loop test, from wherever it is in its turn. */
    method FinishTurn()
      requires Valid() && !stop
      modifies this
      ensures Valid() && phase == AtHead && log == old(log) && !stop
    {
      hide AllOnce, Live, Contents, Balanced;
      if phase == Waiting {
        FlushRound();
      } else if phase.Writing? {
        WriteLoop();
        Reuse();
      }
    }

    method WriteLoop()
      requires Valid() && phase.Writing?
      modifies `logFile, `phase
      ensures Valid() && phase == Writing(|buffersToWrite|)
    {
      hide AllOnce, Live, Contents, Balanced;
      while phase.done < |buffersToWrite|
        invariant Valid() && phase.Writing?
        decreases |buffersToWrite| - phase.done
      {
        WriteOne();
      }
    }

    /** The file, and what is in buffers, oldest first. */
    method Observe() returns (file: seq<bv8>, buffered: seq<bv8>)
      requires Valid()
      ensures file == logFile && file + buffered == log
    {
      hide AllOnce, Live, Contents, Balanced;
      file := logFile;
      var full := Contents(fulledBuffers);
      buffered := Unwritten() + full + curBuffer.value.bytes;
      FilePrefix(file, Unwritten(), full, curBuffer.value.bytes, log);
    }
  }

  // ------------------------------------------------------- every interleaving

  /** The log a schedule asks for: the accepted messages in lock order. */
  function Logged(schedule: seq<Action>): seq<bv8>
  {
    if schedule == [] then []
    else Logged(schedule[..|schedule| - 1])
         + match schedule[|schedule| - 1]
           case LogMessage(msg) => Accepted(msg)
           case _ => []
  }

  /** One action of an appender, the flusher or the stopping thread. */
  method Act(appender: AsyncFileAppender, a: Action)
    requires appender.Valid()
    modifies appender
    ensures appender.Valid() && old(appender.logFile) <= appender.logFile
    ensures appender.log == old(appender.log) + if a.LogMessage? then Accepted(a.msg) else []
    ensures appender.View() == Step(old(appender.View()), a)
  {
    hide AllOnce, Live, Contents, Balanced, Flush;
    match a {
      case LogMessage(msg) =>
        appender.Append(msg);
      case FlushThreadStep =>
        appender.FlushStep();
      case StopAppender =>
        appender.Stop();
    }
  }

  /**
   * After every schedule of appenders, flusher steps and stops, the file is what the pipe has it to be, and the
   * file followed by what is still in buffers is the log: nothing is lost, doubled or reordered.
   */
  method Interleave(schedule: seq<Action>) returns (file: seq<bv8>, buffered: seq<bv8>)
    ensures file == Reached(schedule).file
    ensures file + buffered == Logged(schedule)
  {
    hide AllOnce, Live, Contents, Balanced, Step;
    var appender := new AsyncFileAppender();
    for i := 0 to |schedule|
      invariant appender.Valid() && fresh(appender)
      invariant appender.View() == Reached(schedule[..i]) && appender.log == Logged(schedule[..i])
    {
      assert schedule[..i + 1][..i] == schedule[..i];
      Act(appender, schedule[i]);
    }
    assert schedule[..|schedule|] == schedule;
    file, buffered := appender.Observe();
  }

  // ------------------------------------------------- enough steps of the flusher

  function Concat(s: seq<seq<bv8>>): seq<bv8>
  {
    if s == [] then [] else s[0] + Concat(s[1..])
  }

  lemma {:induction false} ConcatPush(s: seq<seq<bv8>>, b: seq<bv8>)
    ensures Concat(s + [b]) == Concat(s) + b
  {
    if s == [] {
      assert s + [b] == [b] && [b][1..] == [];
    } else {
      assert (s + [b])[1..] == s[1..] + [b];
      ConcatPush(s[1..], b);
    }
  }

  ghost predicate InOrder(p: Pipe)
  {
    match p.phase
    case Writing(done) => done <= |p.toWrite|
    case Exited => p.toWrite == [] && p.stop
    case _ => p.toWrite == []
  }

  /** What the flusher has taken over and not yet written. */
  function TakenOver(p: Pipe): seq<bv8>
    requires InOrder(p)
  {
    if p.phase.Writing? then Concat(p.toWrite[p.phase.done..]) else []
  }

  /** All that is in the pipe, oldest first. */
  function InPipe(p: Pipe): seq<bv8>
    requires InOrder(p)
  {
    p.file + TakenOver(p) + (Concat(p.full) + p.cur)
  }

  lemma TakeKeeps(p: Pipe, msg: seq<bv8>)
    requires InOrder(p)
    ensures InOrder(Take(p, msg)) && InPipe(Take(p, msg)) == InPipe(p) + Accepted(msg)
  {
    hide Concat;
    var q, front := Take(p, msg), p.file + TakenOver(p);
    ConcatPush(p.full, p.cur);
    assert q.file + TakenOver(q) == front;
    assert Concat(q.full) + q.cur == Concat(p.full) + p.cur + Accepted(msg);
    assert front + (Concat(p.full) + p.cur + Accepted(msg)) == front + (Concat(p.full) + p.cur) + Accepted(msg);
  }

  lemma FlushKeeps(p: Pipe)
    requires InOrder(p)
    ensures InOrder(Flush(p)) && InPipe(Flush(p)) == InPipe(p) && p.file <= Flush(p).file
  {
    hide Concat;
    NothingToConcat();
    var q := Flush(p);
    if p.phase == Waiting {
      ConcatPush(p.full, p.cur);
      assert q.toWrite[0..] == q.toWrite;
      assert q.file + TakenOver(q) + ([] + []) == p.file + [] + (Concat(p.full) + p.cur);
    } else if p.phase.Writing? && p.phase.done < |p.toWrite| {
      NextToWrite(p.toWrite, p.phase.done);
      assert q.file + TakenOver(q) == p.file + TakenOver(p);
    } else if p.phase.Writing? {
      assert p.toWrite[p.phase.done..] == [];
    }
  }

  lemma NothingToConcat()
    ensures Concat([]) == []
  {
  }

  lemma NextToWrite(s: seq<seq<bv8>>, k: nat)
    requires k < |s|
    ensures Concat(s[k..]) == s[k] + Concat(s[k + 1..])
  {
    assert s[k..][1..] == s[k + 1..];
  }

  /** What a schedule leaves in the pipe is what it logged, in a number of buffers no larger than its own length. */
  lemma {:induction false} ReachedKeeps(schedule: seq<Action>)
    ensures var p := Reached(schedule);
            && InOrder(p) && InPipe(p) == Logged(schedule) && |p.full| + |p.toWrite| <= |schedule|
            && (StopAppender !in schedule ==> !p.stop)
  {
    hide InPipe;
    if schedule == [] {
      NothingInPipe();
    } else {
      var before := schedule[..|schedule| - 1];
      ReachedKeeps(before);
      match schedule[|schedule| - 1]
      case LogMessage(msg) => TakeKeeps(Reached(before), msg);
      case FlushThreadStep => FlushKeeps(Reached(before));
      case StopAppender => StopKeeps(Reached(before));
    }
  }

  lemma NothingInPipe()
    ensures InOrder(EMPTY) && InPipe(EMPTY) == []
  {
  }

  lemma StopKeeps(p: Pipe)
    requires InOrder(p)
    ensures InOrder(p.(stop := true)) && InPipe(p.(stop := true)) == InPipe(p)
  {
  }

  /** n steps of the flusher alone. */
  function FlushSteps(p: Pipe, n: nat): Pipe
    decreases n
  {
    if n == 0 then p else FlushSteps(Flush(p), n - 1)
  }

  /** How many steps it takes to write everything. */
  function StepsLeft(p: Pipe): nat
    requires InOrder(p) && !p.phase.Exited?
  {
    match p.phase
    case AtHead => |p.full| + 3
    case Waiting => |p.full| + 2
    case Writing(done) =>
      var left := |p.toWrite| - done;
      if p.full == [] && p.cur == [] then left else left + |p.full| + 4
  }

  /** Once everything is written it stays so. */
  lemma {:induction false} StaysWritten(p: Pipe, n: nat)
    requires InOrder(p) && p.file == InPipe(p)
    ensures FlushSteps(p, n).file == InPipe(p)
    decreases n
  {
    hide InPipe, Flush;
    if n > 0 {
      FlushKeeps(p);
      FileInPipe(Flush(p));
      StaysWritten(Flush(p), n - 1);
    }
  }

  lemma FileInPipe(p: Pipe)
    requires InOrder(p)
    ensures p.file <= InPipe(p)
  {
  }

  lemma {:induction false} AllGetsWritten(p: Pipe, n: nat)
    requires InOrder(p) && !p.stop && n >= StepsLeft(p)
    ensures FlushSteps(p, n).file == InPipe(p)
    decreases n
  {
    hide InPipe;
    if StepsLeft(p) == 0 {
      NothingLeft(p);
      StaysWritten(p, n);
    } else {
      FlushKeeps(p);
      AllGetsWritten(Flush(p), n - 1);
    }
  }

  lemma NothingLeft(p: Pipe)
    requires InOrder(p) && p.phase == Writing(|p.toWrite|) && p.full == [] && p.cur == []
    ensures p.file == InPipe(p)
  {
  }

  function Steps(n: nat): seq<Action>
  {
    if n == 0 then [] else Steps(n - 1) + [FlushThreadStep]
  }

  lemma OneMoreStep(schedule: seq<Action>)
    ensures Reached(schedule + [FlushThreadStep]) == Flush(Reached(schedule))
    ensures Logged(schedule + [FlushThreadStep]) == Logged(schedule)
  {
    assert (schedule + [FlushThreadStep])[..|schedule|] == schedule;
  }

  lemma {:induction false} ReachedSteps(schedule: seq<Action>, n: nat)
    ensures Reached(schedule + Steps(n)) == FlushSteps(Reached(schedule), n)
    ensures Logged(schedule + Steps(n)) == Logged(schedule)
    decreases n
  {
    hide Reached, Logged, Flush;
    if n == 0 {
      assert schedule + Steps(0) == schedule;
    } else {
      ReachedSteps(schedule, n - 1);
      assert schedule + Steps(n) == schedule + Steps(n - 1) + [FlushThreadStep];
      OneMoreStep(schedule + Steps(n - 1));
      LastStep(Reached(schedule), n - 1);
    }
  }

  lemma {:induction false} LastStep(p: Pipe, n: nat)
    ensures FlushSteps(p, n + 1) == Flush(FlushSteps(p, n))
    decreases n
  {
    hide Flush;
    if n > 0 {
      LastStep(Flush(p), n - 1);
    }
  }

  /** After a schedule without a stop, enough further steps of the flusher put everything logged in the file. */
  lemma Settles(schedule: seq<Action>, n: nat)
    requires StopAppender !in schedule && n >= |schedule| + 4
    ensures Reached(schedule + Steps(n)).file == Logged(schedule) == Logged(schedule + Steps(n))
  {
    hide Flush, InPipe;
    ReachedKeeps(schedule);
    ReachedSteps(schedule, n);
    AllGetsWritten(Reached(schedule), n);
  }

  /** The appender settles within that many steps. */
  method Settle(schedule: seq<Action>, n: nat) returns (file: seq<bv8>)
    requires StopAppender !in schedule && n >= |schedule| + 4
    ensures file == Logged(schedule)
  {
    hide Reached, Logged;
    Settles(schedule, n);
    var all, buffered := Interleave(schedule + Steps(n));
    file := all;
  }
}
