/** The send path and the life of a connection (TcpConn.cc), on the plain descriptor. */
module TcpConn {
  import opened Buffers

  datatype State = Connected | Disconnected | Shutdown

  lemma FirstSent(sent: seq<bv8>, pending: seq<bv8>, n: nat)
    requires n <= |pending|
    ensures sent + pending[..n] + pending[n..] == sent + pending
    ensures sent + pending[..n] <= sent + pending
  {
  }

  class TcpConn {
    var state: State
    var writing: bool                    // the channel's interest in write events
    const sendBuffer: BaseBuffer<bv8>
    const recvBuffer: BaseBuffer<bv8>

    ghost var queued: seq<bv8>           // everything Send accepted
    ghost var sent: seq<bv8>             // everything the kernel accepted

    /** The send path is a FIFO, and bytes waiting in it are never without write interest. */
    ghost predicate Valid()
      reads this, sendBuffer, sendBuffer.buffer, recvBuffer
    {
      && sendBuffer != recvBuffer && sendBuffer.buffer != recvBuffer.buffer
      && sendBuffer.Valid() && recvBuffer.Valid()
      && sent <= queued
      && (state == Connected ==>
            && sent + sendBuffer.Contents() == queued
            && (sendBuffer.Contents() != [] ==> writing))
    }

    /** The connected state is left for good, and then the two byte streams stand still. */
    twostate predicate Frozen()
      reads this
    {
      old(state) != Connected ==>
        state != Connected && queued == old(queued) && sent == old(sent)
    }

    constructor ()
      ensures Valid() && state == Connected && !writing && queued == [] && sent == []
      ensures fresh(sendBuffer) && fresh(recvBuffer) && fresh(sendBuffer.buffer) && fresh(recvBuffer.buffer)
    {
      state, writing := Connected, false;
      sendBuffer := new BaseBuffer(1024);
      recvBuffer := new BaseBuffer(1024);
      queued, sent := [], [];
    }

    method Send(data: seq<bv8>)
      requires Valid()
      modifies this, sendBuffer, sendBuffer.buffer
      ensures Valid() && Frozen() && state == old(state) && sent == old(sent)
      ensures queued == old(queued) + if state == Connected then data else []
      ensures state == Connected ==> writing && sendBuffer.Contents() == old(sendBuffer.Contents()) + data
      ensures state != Connected ==> writing == old(writing) && sendBuffer.Contents() == old(sendBuffer.Contents())
      ensures sendBuffer.buffer == old(sendBuffer.buffer) || fresh(sendBuffer.buffer)
    {
      if state != Connected {
        return;
      }
      sendBuffer.Append(data);
      writing := true;
      queued := queued + data;
    }

    /**
     * A write event. The kernel returned n, at most what was offered; peerGone says that a failure
     * meant EPIPE or ECONNRESET.
     */
    method OnChannelWritable(n: int, peerGone: bool)
      requires Valid() && n <= |sendBuffer.Contents()|
      modifies this, sendBuffer
      ensures Valid() && Frozen() && state == old(state) && queued == old(queued)
      ensures sent == old(sent) + if state == Connected && n > 0 then old(sendBuffer.Contents())[..n] else []
      ensures sendBuffer.buffer == old(sendBuffer.buffer)
      ensures sendBuffer.Contents() == if state == Connected && n > 0 then old(sendBuffer.Contents())[n..]
                                       else old(sendBuffer.Contents())
      ensures writing == (old(writing) && !(state == Connected && sendBuffer.Contents() == [] && !(n < 0 && peerGone)))
    {
      if state != Connected {
        return;
      }
      ghost var pending := sendBuffer.Contents();
      var r := sendBuffer.WriteBytesToFd(n);
      if r > 0 {
        FirstSent(sent, pending, n);
        sent := sent + pending[..n];
      } else if r < 0 && peerGone {
        return;
      }
      var readable := sendBuffer.ReadableBytes();
      if readable == 0 {
        writing := false;
      }
    }

    /** rc says that shutdown(2) succeeded. */
    method Shutdown(rc: bool)
      requires Valid()
      modifies this, sendBuffer, recvBuffer
      ensures Valid() && Frozen() && queued == old(queued) && sent == old(sent)
      ensures state == if rc then State.Shutdown else Disconnected
      ensures rc ==> !writing
      ensures rc ==> sendBuffer.Contents() == old(sendBuffer.Contents()) && recvBuffer.Contents() == old(recvBuffer.Contents())
      ensures sendBuffer.buffer == old(sendBuffer.buffer) || fresh(sendBuffer.buffer)
      ensures recvBuffer.buffer == old(recvBuffer.buffer) || fresh(recvBuffer.buffer)
    {
      state := State.Shutdown;
      writing := false;
      if !rc {
        OnChannelClose();
      }
    }

    /** Also what ForceClose runs. */
    method OnChannelClose()
      requires Valid()
      modifies this, sendBuffer, recvBuffer
      ensures Valid() && Frozen() && queued == old(queued) && sent == old(sent)
      ensures state == Disconnected && sendBuffer.Contents() == [] && recvBuffer.Contents() == []
      ensures writing == old(writing)
      ensures fresh(sendBuffer.buffer) && fresh(recvBuffer.buffer)
    {
      state := Disconnected;
      sendBuffer.Release();
      recvBuffer.Release();
    }

    /** A read event. The kernel returned n and, when n is positive, the bytes incoming. */
    method OnChannelReadable(n: int, incoming: seq<bv8>)
      requires Valid()
      requires n > 0 ==> |incoming| == n <= recvBuffer.ReadLimit()
      modifies this, sendBuffer, recvBuffer, recvBuffer.buffer
      ensures Valid() && Frozen() && queued == old(queued) && sent == old(sent)
      ensures state == if old(state) == Connected && n <= 0 then Disconnected else old(state)
      ensures old(state) == Connected && n > 0 ==> recvBuffer.Contents() == old(recvBuffer.Contents()) + incoming
      ensures writing == old(writing)
      ensures state == old(state) ==> sendBuffer.Contents() == old(sendBuffer.Contents())
      ensures sendBuffer.buffer == old(sendBuffer.buffer) || fresh(sendBuffer.buffer)
      ensures recvBuffer.buffer == old(recvBuffer.buffer) || fresh(recvBuffer.buffer)
    {
      if state != Connected {
        return;
      }
      var r := recvBuffer.ReadBytesFromFd(n, incoming);
      if r <= 0 {
        OnChannelClose();
      }
    }
  }

  // ------------------------------------------------------------------ whole lives

  /** Writable: the kernel would take n bytes. Readable: the socket holds incoming, and none at end of file. */
  datatype Event =
    | Sending(data: seq<bv8>)
    | Writable(n: int, peerGone: bool)
    | Readable(incoming: seq<bv8>, failed: bool)
    | ShuttingDown(rc: bool)
    | Closing

  predicate Leaves(e: Event)
  {
    e.ShuttingDown? || e.Closing? || (e.Readable? && (e.failed || e.incoming == []))
  }

  predicate StaysConnected(events: seq<Event>)
  {
    forall e | e in events :: !Leaves(e)
  }

  /** The data of every Send before the connection was left. */
  function Accepted(events: seq<Event>): seq<bv8>
  {
    if events == [] then []
    else
      var before := events[..|events| - 1];
      var e := events[|events| - 1];
      Accepted(before) + if e.Sending? && StaysConnected(before) then e.data else []
  }

  /** What an event leaves of the bytes that wait to be sent. */
  function Waiting(s: seq<bv8>, e: Event): seq<bv8>
  {
    match e
    case Sending(data) => s + data
    case Writable(n, _) => if n > 0 then Beyond(s, n) else s
    case _ => s
  }

  /** What the kernel takes of the bytes that wait. */
  function Taken(s: seq<bv8>, e: Event): seq<bv8>
  {
    if e.Writable? && e.n > 0 then FirstOf(s, e.n) else []
  }

  function Interest(writing: bool, s: seq<bv8>, e: Event): bool
  {
    match e
    case Sending(_) => true
    case Writable(n, peerGone) => writing && !(Waiting(s, e) == [] && !(n < 0 && peerGone))
    case _ => writing
  }

  /** The bytes that wait while the connection lasts. */
  function Unsent(events: seq<Event>): seq<bv8>
  {
    if events == [] then [] else Waiting(Unsent(events[..|events| - 1]), events[|events| - 1])
  }

  /** What the kernel accepted before the connection was left: by each write event the front of what waited. */
  function Delivered(events: seq<Event>): seq<bv8>
  {
    if events == [] then []
    else
      var before := events[..|events| - 1];
      Delivered(before) + if StaysConnected(before) then Taken(Unsent(before), events[|events| - 1]) else []
  }

  /** Write interest while the connection lasts. */
  function Interested(events: seq<Event>): bool
  {
    if events == [] then false
    else
      var before := events[..|events| - 1];
      Interest(Interested(before), Unsent(before), events[|events| - 1])
  }

  /** Nothing is lost, doubled or reordered, and bytes never wait without write interest. */
  lemma {:induction false} NothingLost(events: seq<Event>)
    ensures StaysConnected(events) ==>
              Delivered(events) + Unsent(events) == Accepted(events) && (Unsent(events) != [] ==> Interested(events))
    ensures Delivered(events) <= Accepted(events)
  {
    hide Taken, Waiting, Interest, Leaves;
    if events != [] {
      var before, e := events[..|events| - 1], events[|events| - 1];
      NothingLost(before);
      assert StaysConnected(events) ==> StaysConnected(before);
      if StaysConnected(before) {
        TakenOrWaiting(Delivered(before), Unsent(before), e);
        NeverStuck(Interested(before), Unsent(before), e);
      }
    }
  }

  lemma TakenOrWaiting(sent: seq<bv8>, s: seq<bv8>, e: Event)
    ensures sent + Taken(s, e) + Waiting(s, e) == sent + s + if e.Sending? then e.data else []
    ensures sent + Taken(s, e) <= sent + s + if e.Sending? then e.data else []
  {
  }

  lemma NeverStuck(writing: bool, s: seq<bv8>, e: Event)
    requires s != [] ==> writing
    ensures Waiting(s, e) != [] ==> Interest(writing, s, e)
  {
  }

  lemma OneEvent(events: seq<Event>, i: nat)
    requires i < |events|
    ensures StaysConnected(events[..i + 1]) <==> StaysConnected(events[..i]) && !Leaves(events[i])
    ensures Unsent(events[..i + 1]) == Waiting(Unsent(events[..i]), events[i])
    ensures Interested(events[..i + 1]) == Interest(Interested(events[..i]), Unsent(events[..i]), events[i])
    ensures Delivered(events[..i + 1])
            == Delivered(events[..i]) + if StaysConnected(events[..i]) then Taken(Unsent(events[..i]), events[i]) else []
  {
    assert events[..i + 1] == events[..i] + [events[i]];
    assert events[..i + 1][..i] == events[..i];
  }

  lemma NoEvents(events: seq<Event>)
    ensures StaysConnected(events[..0]) && Delivered(events[..0]) == [] && Unsent(events[..0]) == []
    ensures !Interested(events[..0])
  {
  }

  /** One event; a read brings what its two segments hold. */
  method Handle(conn: TcpConn, e: Event)
    requires conn.Valid()
    modifies conn, conn.sendBuffer, conn.recvBuffer, conn.sendBuffer.buffer, conn.recvBuffer.buffer
    ensures conn.Valid() && conn.Frozen()
    ensures conn.sendBuffer.buffer == old(conn.sendBuffer.buffer) || fresh(conn.sendBuffer.buffer)
    ensures conn.recvBuffer.buffer == old(conn.recvBuffer.buffer) || fresh(conn.recvBuffer.buffer)
    ensures conn.queued == old(conn.queued) + if e.Sending? && old(conn.state) == Connected then e.data else []
    ensures conn.sent == old(conn.sent) + if old(conn.state) == Connected then Taken(old(conn.sendBuffer.Contents()), e)
                                          else []
    ensures conn.state == Connected <==> old(conn.state) == Connected && !Leaves(e)
    ensures conn.state == Connected ==>
              && conn.sendBuffer.Contents() == Waiting(old(conn.sendBuffer.Contents()), e)
              && conn.writing == Interest(old(conn.writing), old(conn.sendBuffer.Contents()), e)
    ensures conn.state == Connected && e.Readable? ==>
              conn.recvBuffer.Contents()
              == old(conn.recvBuffer.Contents()) + FirstOf(e.incoming, old(conn.recvBuffer.ReadLimit()))
  {
    match e {
      case Sending(data) =>
        conn.Send(data);
      case Writable(n, peerGone) =>
        var readable := conn.sendBuffer.ReadableBytes();
        conn.OnChannelWritable(if n < readable then n else readable, peerGone);
      case Readable(incoming, failed) =>
        var delivered := FirstOf(incoming, conn.recvBuffer.ReadLimit());
        conn.OnChannelReadable(if failed then -1 else |delivered|, delivered);
      case ShuttingDown(rc) =>
        conn.Shutdown(rc);
      case Closing =>
        conn.OnChannelClose();
    }
  }

  /**
   * Over every life of a connection, in whatever order its events come and whatever the kernel takes: the bytes
   * sent are those that each write event took from the front of what waited. While connected, what waits and the
   * write interest are those the events leave.
   */
  method Live(events: seq<Event>) returns (state: State, writing: bool, pending: seq<bv8>, ghost sent: seq<bv8>)
    ensures state == Connected <==> StaysConnected(events)
    ensures sent == Delivered(events)
    ensures state == Connected ==> pending == Unsent(events) && writing == Interested(events)
  {
    hide StaysConnected, Delivered, Unsent, Interested, Leaves, Waiting, Interest, Taken;
    var conn := new TcpConn();
    NoEvents(events);
    for i := 0 to |events|
      invariant fresh(conn) && fresh(conn.sendBuffer) && fresh(conn.recvBuffer)
      invariant fresh(conn.sendBuffer.buffer) && fresh(conn.recvBuffer.buffer)
      invariant conn.Valid() && conn.sent == Delivered(events[..i])
      invariant conn.state == Connected <==> StaysConnected(events[..i])
      invariant conn.state == Connected ==>
                  conn.sendBuffer.Contents() == Unsent(events[..i]) && conn.writing == Interested(events[..i])
    {
      OneEvent(events, i);
      Handle(conn, events[i]);
    }
    assert events[..|events|] == events;
    pending := conn.sendBuffer.ToStringView();
    state, writing, sent := conn.state, conn.writing, conn.sent;
  }
}
