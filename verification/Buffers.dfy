/** The growable byte queue of BaseBuffer.cc: an array with a read and a write index. */
module Buffers {
  import Memory

  /** The size of the second segment of a read. */
  const EXTRA: nat := 65535

  function Max(a: int, b: int): (m: int)
    ensures a <= m && b <= m && (m == a || m == b)
  {
    if a < b then b else a
  }

  /** The new size when len more bytes do not fit. */
  function NewSize(size: nat, len: nat): nat
  {
    Max(size + len, size + size / 2)
  }

  /**
   * A reallocation happens only when the bytes to hold exceed the size. It makes room for them,
   * at most doubles them, and grows by at least half the bytes it relocates.
   */
  lemma GrowthBounds(size: nat, readable: nat, len: nat)
    requires readable <= size < readable + len
    ensures readable + len <= NewSize(size, len) < 2 * (readable + len)
    ensures size <= 2 * (NewSize(size, len) - size) + 1
  {
    assert size <= 2 * (size / 2) + 1;
  }

  lemma Slice<T>(longer: seq<T>, s: seq<T>, from: nat, to: nat)
    requires s <= longer && from <= to <= |s|
    ensures longer[from..to] == s[from..to]
  {
  }

  class BaseBuffer<T(0)> {
    var buffer: array<T>
    var readIdx: nat
    var writeIdx: nat

    // What happened since construction or the last Release.
    ghost var initialSize: nat
    ghost var peak: nat        // the most bytes readable or requested at one time
    ghost var relocated: nat   // bytes relocated by reallocations
    ghost var reallocations: nat

    ghost predicate Valid()
      reads this
    {
      && readIdx <= writeIdx <= buffer.Length
      && initialSize <= buffer.Length <= Max(initialSize, 2 * peak)
      && relocated <= 2 * (buffer.Length - initialSize) + reallocations
    }

    /** The bytes in the queue. */
    ghost function Contents(): seq<T>
      requires Valid()
      reads this, buffer
    {
      buffer[readIdx..writeIdx]
    }

    /** The most a single read can bring: the free space and, when that is short, a second segment. */
    function ReadLimit(): nat
      requires Valid()
      reads this
    {
      var writable := buffer.Length - writeIdx;
      if writable < EXTRA then writable + EXTRA else writable
    }

    /** A change of size is one reallocation, and relocates as many bytes as the old array had. */
    twostate predicate Accounted()
      reads this
    {
      var grown := buffer.Length != old(buffer.Length);
      && relocated == old(relocated) + (if grown then old(buffer.Length) else 0)
      && reallocations == old(reallocations) + if grown then 1 else 0
    }

    constructor (initSize: nat)
      ensures Valid() && fresh(buffer)
      ensures Contents() == [] && buffer.Length == initSize
      ensures initialSize == initSize && peak == 0 && relocated == 0 && reallocations == 0
    {
      buffer := new T[initSize];
      readIdx, writeIdx := 0, 0;
      initialSize, peak, relocated, reallocations := initSize, 0, 0, 0;
    }

    method ReadableBytes() returns (n: nat)
      requires Valid()
      ensures n == |Contents()|
    {
      n := writeIdx - readIdx;
    }

    method WritableBytes() returns (n: nat)
      requires Valid()
      ensures n == buffer.Length - writeIdx
    {
      n := buffer.Length - writeIdx;
    }

    method ToStringView() returns (s: seq<T>)
      requires Valid()
      ensures s == Contents()
    {
      s := buffer[readIdx..writeIdx];
    }

    method DropAllBytes()
      requires Valid()
      modifies `readIdx, `writeIdx
      ensures Valid() && Contents() == []
    {
      readIdx, writeIdx := 0, 0;
    }

    method DropBytes(n: nat)
      requires Valid()
      modifies `readIdx, `writeIdx
      ensures Valid()
      ensures Contents() == if n >= |old(Contents())| then [] else old(Contents())[n..]
    {
      var readable := ReadableBytes();
      if n >= readable {
        DropAllBytes();
      } else {
        readIdx := readIdx + n;
      }
    }

    /** pos is a position in the readable bytes, or just after them. */
    method DropBytesUntil(pos: nat)
      requires Valid() && readIdx <= pos <= writeIdx
      modifies `readIdx
      ensures Valid() && Contents() == old(Contents())[pos - old(readIdx)..]
    {
      while readIdx != pos
        invariant readIdx <= pos
        decreases pos - readIdx
      {
        readIdx := readIdx + 1;
      }
    }

    method Release()
      requires Valid()
      modifies this
      ensures Valid() && fresh(buffer)
      ensures Contents() == [] && buffer.Length == 0
      ensures initialSize == 0 && peak == 0 && relocated == 0 && reallocations == 0
    {
      buffer := new T[0];
      readIdx, writeIdx := 0, 0;
      initialSize, peak, relocated, reallocations := 0, 0, 0, 0;
    }

    /** The leftward move: source and target overlap, and each byte is read before it is overwritten. */
    method MoveToFront()
      requires Valid()
      modifies buffer, `readIdx, `writeIdx
      ensures Valid() && Contents() == old(Contents())
      ensures readIdx == 0
    {
      var n := writeIdx - readIdx;
      for i := 0 to n
        invariant forall k | 0 <= k < i :: buffer[k] == old(buffer[readIdx + k])
        invariant forall k | readIdx + i <= k < writeIdx :: buffer[k] == old(buffer[k])
        modifies buffer
      {
        buffer[i] := buffer[readIdx + i];
      }
      readIdx, writeIdx := 0, n;
    }

    /** resize relocates the whole old array, dropped bytes included. */
    method Reallocate(len: nat)
      requires Valid() && buffer.Length < writeIdx - readIdx + len <= peak
      modifies this
      ensures Valid() && fresh(buffer)
      ensures Contents() == old(Contents())
      ensures buffer.Length - writeIdx >= len
      ensures peak == old(peak) && initialSize == old(initialSize) && Accounted()
      ensures buffer.Length == old(buffer.Length) + Max(len, old(buffer.Length) / 2)
    {
      GrowthBounds(buffer.Length, writeIdx - readIdx, len);
      var newBuffer := new T[NewSize(buffer.Length, len)];
      Memory.Copy(newBuffer, 0, buffer[..]);
      Slice(newBuffer[..], buffer[..], readIdx, writeIdx);
      assert newBuffer[readIdx..writeIdx] == newBuffer[..][readIdx..writeIdx];
      relocated, reallocations := relocated + buffer.Length, reallocations + 1;
      buffer := newBuffer;
    }

    /** Makes room for len bytes by doing nothing, moving the contents, or reallocating; the contents stay. */
    method EnsureWritableSpace(len: nat)
      requires Valid()
      modifies this, buffer
      ensures Valid() && (buffer == old(buffer) || fresh(buffer))
      ensures Contents() == old(Contents())
      ensures buffer.Length - writeIdx >= len
      ensures peak == Max(old(peak), |Contents()| + len) && initialSize == old(initialSize) && Accounted()
    {
      peak := Max(peak, writeIdx - readIdx + len);
      var writable := WritableBytes();
      if writable >= len {
        return;
      }
      var freeSpace := readIdx;
      if freeSpace + writable >= len {
        MoveToFront();
        return;
      }
      Reallocate(len);
    }

    method Append(data: seq<T>)
      requires Valid()
      modifies this, buffer
      ensures Valid() && (buffer == old(buffer) || fresh(buffer))
      ensures Contents() == old(Contents()) + data
      ensures initialSize == old(initialSize) && Accounted()
      ensures peak == if data == [] then old(peak) else Max(old(peak), |Contents()|)
    {
      if |data| == 0 {
        return;
      }
      EnsureWritableSpace(|data|);
      Fill(data);
    }

    /** Data goes into the free space, which holds it. */
    method Fill(data: seq<T>)
      requires Valid() && |data| <= buffer.Length - writeIdx
      modifies `writeIdx, buffer
      ensures Valid() && writeIdx == old(writeIdx) + |data|
      ensures Contents() == old(Contents()) + data
    {
      Memory.Copy(buffer, writeIdx, data);
      writeIdx := writeIdx + |data|;
    }

    /**
     * One read into the free space and, when that is short, a second segment. The kernel chose to return n;
     * when n is positive it delivered the n bytes incoming, no more than the segments hold.
     */
    method ReadBytesFromFd(n: int, incoming: seq<T>) returns (r: int)
      requires Valid()
      requires n > 0 ==> |incoming| == n <= ReadLimit()
      modifies this, buffer
      ensures Valid() && (buffer == old(buffer) || fresh(buffer))
      ensures r == n
      ensures Contents() == old(Contents()) + if n > 0 then incoming else []
      ensures initialSize == old(initialSize) && peak <= Max(old(peak), |Contents()|) && Accounted()
    {
      var writable := WritableBytes();
      r := n;
      if n <= 0 {
        return;
      }
      if n <= writable {
        Fill(incoming);
      } else {
        var first, extra := incoming[..writable], incoming[writable..];
        Fill(first);
        assert incoming == first + extra;
        Append(extra);
      }
    }

    /** One write of the readable bytes; the kernel accepted n of them, or failed. */
    method WriteBytesToFd(n: int) returns (r: int)
      requires Valid() && n <= |Contents()|
      modifies `readIdx, `writeIdx
      ensures Valid() && r == n
      ensures Contents() == if n > 0 then old(Contents())[n..] else old(Contents())
    {
      r := n;
      if n > 0 {
        DropBytes(n);
      }
    }
  }

  // ------------------------------------------------------------- runs of the queue

  /** OpRead is a read that finds incoming in the socket, OpWrite one of which the kernel accepts up to n bytes. */
  datatype Op<T> =
    | OpAppend(data: seq<T>)
    | OpDrop(n: nat)
    | OpDropUntil(n: nat)
    | OpDropAll
    | OpRead(incoming: seq<T>)
    | OpWrite(n: nat)
    | OpRelease

  function FirstOf<T>(s: seq<T>, n: nat): (r: seq<T>)
    ensures r <= s && |r| <= n && (|r| < n ==> r == s)
  {
    if n >= |s| then s else s[..n]
  }

  function Beyond<T>(s: seq<T>, n: nat): seq<T>
  {
    if n >= |s| then [] else s[n..]
  }

  /** What one operation does to a plain sequence of bytes. */
  function Meaning<T>(s: seq<T>, op: Op<T>): seq<T>
  {
    match op
    case OpAppend(data) => s + data
    case OpDrop(n) => Beyond(s, n)
    case OpDropUntil(n) => Beyond(s, n)
    case OpDropAll => []
    case OpRead(incoming) => s + incoming
    case OpWrite(n) => Beyond(s, n)
    case OpRelease => []
  }

  function MeaningOfRun<T>(ops: seq<Op<T>>): seq<T>
  {
    if ops == [] then [] else Meaning(MeaningOfRun(ops[..|ops| - 1]), ops[|ops| - 1])
  }

  /** The most bytes the queue held at one time since it was made or last released. */
  function HighWater<T>(ops: seq<Op<T>>): nat
  {
    if ops == [] || ops[|ops| - 1].OpRelease? then 0
    else Max(HighWater(ops[..|ops| - 1]), |MeaningOfRun(ops)|)
  }

  function StartSize<T>(initSize: nat, ops: seq<Op<T>>): nat
  {
    if ops == [] then initSize
    else if ops[|ops| - 1].OpRelease? then 0
    else StartSize(initSize, ops[..|ops| - 1])
  }

  /** Bytes relocated since then: the size before, wherever the size changes. */
  function Relocated<T>(sizes: seq<nat>, ops: seq<Op<T>>): nat
    requires |sizes| == |ops| + 1
  {
    if ops == [] || ops[|ops| - 1].OpRelease? then 0
    else
      var last := |ops| - 1;
      Relocated(sizes[..|ops|], ops[..last]) + if sizes[last] == sizes[last + 1] then 0 else sizes[last]
  }

  /** How often the size changed since then. */
  function Reallocations<T>(sizes: seq<nat>, ops: seq<Op<T>>): nat
    requires |sizes| == |ops| + 1
  {
    if ops == [] || ops[|ops| - 1].OpRelease? then 0
    else
      var last := |ops| - 1;
      Reallocations(sizes[..|ops|], ops[..last]) + if sizes[last] == sizes[last + 1] then 0 else 1
  }

  /** What a read may bring of what is there: all of it, or at least the second segment full. */
  predicate Granted<T(==)>(asked: Op<T>, got: Op<T>)
  {
    if asked.OpRead? then
      && got.OpRead? && got.incoming <= asked.incoming
      && (got.incoming == asked.incoming || |got.incoming| >= 65535)
    else got == asked
  }

  /** A read of what the segments hold of what is there. */
  method Deliver<T(0, ==)>(q: BaseBuffer<T>, incoming: seq<T>) returns (delivered: seq<T>)
    requires q.Valid()
    modifies q, q.buffer
    ensures q.Valid() && (q.buffer == old(q.buffer) || fresh(q.buffer))
    ensures delivered == FirstOf(incoming, old(q.ReadLimit())) && Granted(OpRead(incoming), OpRead(delivered))
    ensures q.Contents() == old(q.Contents()) + delivered && q.Accounted()
    ensures q.initialSize == old(q.initialSize) && q.peak <= Max(old(q.peak), |q.Contents()|)
  {
    delivered := FirstOf(incoming, q.ReadLimit());
    var _ := q.ReadBytesFromFd(|delivered|, delivered);
  }

  /** The operations that only take bytes from the front. */
  method Drop<T(0)>(q: BaseBuffer<T>, op: Op<T>)
    requires q.Valid() && (op.OpDrop? || op.OpDropUntil? || op.OpDropAll? || op.OpWrite?)
    modifies q`readIdx, q`writeIdx
    ensures q.Valid() && q.Contents() == Meaning(old(q.Contents()), op)
  {
    var readable := q.ReadableBytes();
    match op {
      case OpDrop(n) =>
        q.DropBytes(n);
      case OpDropUntil(n) =>
        q.DropBytesUntil(q.readIdx + if n < readable then n else readable);
      case OpDropAll =>
        q.DropAllBytes();
      case OpWrite(n) =>
        var _ := q.WriteBytesToFd(if n < readable then n else readable);
    }
  }

  method Apply<T(0, ==)>(q: BaseBuffer<T>, op: Op<T>) returns (got: Op<T>)
    requires q.Valid()
    modifies q, q.buffer
    ensures q.Valid() && (q.buffer == old(q.buffer) || fresh(q.buffer))
    ensures Granted(op, got)
    ensures op.OpRead? ==> got.incoming == FirstOf(op.incoming, old(q.ReadLimit()))
    ensures q.Contents() == Meaning(old(q.Contents()), got)
    ensures q.initialSize == if op.OpRelease? then 0 else old(q.initialSize)
    ensures q.peak <= if op.OpRelease? then 0 else Max(old(q.peak), |q.Contents()|)
    ensures if op.OpRelease? then q.buffer.Length == q.relocated == q.reallocations == 0 else q.Accounted()
  {
    got := op;
    match op {
      case OpAppend(data) =>
        q.Append(data);
      case OpDrop(_) =>
        Drop(q, op);
      case OpDropUntil(_) =>
        Drop(q, op);
      case OpDropAll =>
        Drop(q, op);
      case OpRead(incoming) =>
        var delivered := Deliver(q, incoming);
        got := OpRead(delivered);
      case OpWrite(_) =>
        Drop(q, op);
      case OpRelease =>
        q.Release();
    }
  }

  /** After a run of ops from initSize, sizes are the sizes of the array before and after each of them. */
  ghost predicate Bounded<T>(initSize: nat, ops: seq<Op<T>>, sizes: seq<nat>)
    requires |sizes| == |ops| + 1
  {
    var start, size := StartSize(initSize, ops), sizes[|ops|];
    && |MeaningOfRun(ops)| <= size && start <= size <= Max(start, 2 * HighWater(ops))
    && Relocated(sizes, ops) <= 2 * (size - start) + Reallocations(sizes, ops)
  }

  /** At each point of the run. */
  ghost predicate AlwaysBounded<T>(initSize: nat, ops: seq<Op<T>>, sizes: seq<nat>)
    requires |sizes| == |ops| + 1
  {
    forall i {:trigger ops[..i]} | 0 <= i <= |ops| :: Bounded(initSize, ops[..i], sizes[..i + 1])
  }

  lemma StillBounded<T>(initSize: nat, ops: seq<Op<T>>, sizes: seq<nat>, op: Op<T>, size: nat)
    requires |sizes| == |ops| + 1 && AlwaysBounded(initSize, ops, sizes)
    requires Bounded(initSize, ops + [op], sizes + [size])
    ensures AlwaysBounded(initSize, ops + [op], sizes + [size])
  {
    hide Bounded;
    var ops', sizes' := ops + [op], sizes + [size];
    forall i | 0 <= i <= |ops'|
      ensures Bounded(initSize, ops'[..i], sizes'[..i + 1])
    {
      if i <= |ops| {
        assert ops'[..i] == ops[..i] && sizes'[..i + 1] == sizes[..i + 1];
      } else {
        assert ops'[..i] == ops' && sizes'[..i + 1] == sizes';
      }
    }
  }

  /** One more operation, in terms of the run. */
  lemma OneMore<T>(initSize: nat, ops: seq<Op<T>>, sizes: seq<nat>, op: Op<T>, size: nat)
    requires |sizes| == |ops| + 1
    ensures MeaningOfRun(ops + [op]) == Meaning(MeaningOfRun(ops), op)
    ensures HighWater(ops + [op]) == if op.OpRelease? then 0 else Max(HighWater(ops), |MeaningOfRun(ops + [op])|)
    ensures StartSize(initSize, ops + [op]) == if op.OpRelease? then 0 else StartSize(initSize, ops)
    ensures Relocated(sizes + [size], ops + [op])
            == if op.OpRelease? then 0 else Relocated(sizes, ops) + if sizes[|ops|] == size then 0 else sizes[|ops|]
    ensures Reallocations(sizes + [size], ops + [op])
            == if op.OpRelease? then 0 else Reallocations(sizes, ops) + if sizes[|ops|] == size then 0 else 1
  {
    assert (ops + [op])[..|ops|] == ops && (sizes + [size])[..|ops| + 1] == sizes;
  }

  /**
   * Over every run of operations from every initial size, the queue holds what a plain sequence would after the
   * operations that took place: those asked for, with each read cut to what its two segments hold. At each
   * point of the run the array is no larger than it started or twice what it had to hold, and the bytes
   * relocated are at most twice what it grew by and one for each reallocation.
   */
  method Replay<T(0, ==)>(initSize: nat, ops: seq<Op<T>>)
    returns (s: seq<T>, done: seq<Op<T>>, sizes: seq<nat>)
    ensures |done| == |ops| && forall i | 0 <= i < |ops| :: Granted(ops[i], done[i])
    ensures s == MeaningOfRun(done)
    ensures |sizes| == |ops| + 1 && sizes[0] == initSize
    ensures AlwaysBounded(initSize, done, sizes)
  {
    hide MeaningOfRun, HighWater, StartSize, Relocated, Reallocations, Bounded, AlwaysBounded, Granted, Meaning;
    var q := new BaseBuffer<T>(initSize);
    done, sizes := [], [initSize];
    Start<T>(initSize);
    for i := 0 to |ops|
      invariant fresh(q) && fresh(q.buffer) && q.Valid() && |done| == i && |sizes| == i + 1
      invariant q.Contents() == MeaningOfRun(done) && q.buffer.Length == sizes[i]
      invariant q.initialSize == StartSize(initSize, done) && q.peak <= HighWater(done)
      invariant q.relocated == Relocated(sizes, done) && q.reallocations == Reallocations(sizes, done)
      invariant forall k | 0 <= k < i :: Granted(ops[k], done[k])
      invariant sizes[0] == initSize && AlwaysBounded(initSize, done, sizes)
    {
      var got := Apply(q, ops[i]);
      OneMore(initSize, done, sizes, got, q.buffer.Length);
      WithinBounds(q, initSize, done + [got], sizes + [q.buffer.Length]);
      StillBounded(initSize, done, sizes, got, q.buffer.Length);
      done, sizes := done + [got], sizes + [q.buffer.Length];
    }
    s := q.ToStringView();
  }

  lemma WithinBounds<T(0)>(q: BaseBuffer<T>, initSize: nat, ops: seq<Op<T>>, sizes: seq<nat>)
    requires q.Valid() && |sizes| == |ops| + 1
    requires q.Contents() == MeaningOfRun(ops) && q.buffer.Length == sizes[|ops|]
    requires q.initialSize == StartSize(initSize, ops) && q.peak <= HighWater(ops)
    requires q.relocated == Relocated(sizes, ops) && q.reallocations == Reallocations(sizes, ops)
    ensures Bounded(initSize, ops, sizes)
  {
  }

  lemma Start<T>(initSize: nat)
    ensures MeaningOfRun<T>([]) == [] && HighWater<T>([]) == 0 && StartSize<T>(initSize, []) == initSize
    ensures Relocated<T>([initSize], []) == 0 && Reallocations<T>([initSize], []) == 0
    ensures AlwaysBounded<T>(initSize, [], [initSize])
  {
    assert Bounded<T>(initSize, [], [initSize]);
  }
}
