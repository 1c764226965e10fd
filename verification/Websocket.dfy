/** Frame decoding of WebsocketCodec.cc after the handshake, against section 5 of RFC 6455. */
module Websocket {
  import opened Buffers
  import opened Blocks
  import opened Words

  // ------------------------------------------------------------- RFC 6455, 5.2

  /** A number in network byte order. */
  function BigEndian(s: seq<bv8>): nat
  {
    if s == [] then 0 else 256 * BigEndian(s[..|s| - 1]) + Value(s[|s| - 1])
  }

  function Opcode(s: seq<bv8>): bv8
    requires |s| >= 2
  {
    s[0] & 0x0f
  }

  function Length7(s: seq<bv8>): bv8
    requires |s| >= 2
  {
    s[1] & 0x7f
  }

  const CLOSE: bv8 := 0x08

  /** Unmasked frames and close frames end the connection. */
  predicate IsRefused(s: seq<bv8>)
    requires |s| >= 2
  {
    s[1] & 0x80 == 0 || Opcode(s) == CLOSE
  }

  /** Base head, extended length if any, mask key. */
  function HeadSize(s: seq<bv8>): (n: nat)
    requires |s| >= 2
    ensures 6 <= n <= 14
  {
    if Length7(s) < 126 then 6 else if Length7(s) == 126 then 8 else 14
  }

  /** What DecodeFrameHead reads is there. */
  predicate HeadReadable(s: seq<bv8>)
  {
    |s| >= 2 && (IsRefused(s) || |s| >= HeadSize(s))
  }

  function MaskKey(s: seq<bv8>): (k: seq<bv8>)
    requires |s| >= 2 && |s| >= HeadSize(s)
    ensures |k| == 4
  {
    s[HeadSize(s) - 4..HeadSize(s)]
  }

  function PayloadLength(s: seq<bv8>): nat
    requires |s| >= 2 && |s| >= HeadSize(s)
  {
    if Length7(s) < 126 then Length7(s) as int
    else if Length7(s) == 126 then BigEndian(s[2..4])
    else BigEndian(s[2..10])
  }

  // ------------------------------------------------------------- RFC 6455, 5.3

  function Xor(a: bv8, b: bv8): bv8 { a ^ b }

  /** Masking of bytes that start at position from of the payload. */
  function Mask(key: seq<bv8>, data: seq<bv8>, from: nat): (r: seq<bv8>)
    requires |key| == 4
    ensures |r| == |data|
  {
    seq(|data|, i requires 0 <= i < |data| => Xor(data[i], key[(i + from) % 4]))
  }

  lemma MaskInvolution(key: seq<bv8>, data: seq<bv8>)
    requires |key| == 4
    ensures Mask(key, Mask(key, data, 0), 0) == data
  {
    forall i | 0 <= i < |data|
      ensures Mask(key, Mask(key, data, 0), 0)[i] == data[i]
    {
      XorTwice(data[i], key[i % 4]);
    }
  }

  lemma XorTwice(a: bv8, k: bv8)
    ensures Xor(Xor(a, k), k) == a
  {
  }

  /** Exclusive or: the bits that are in one of the two and not in both. */
  lemma XorBits(a: bv8, k: bv8)
    ensures Xor(a, k) == (a | k) & !(a & k)
  {
  }

  /** Byte i of masked data, with the key byte at its place in the payload modulo 4. */
  lemma MaskBytes(key: seq<bv8>, data: seq<bv8>, from: nat)
    requires |key| == 4
    ensures forall i {:trigger Mask(key, data, from)[i]} | 0 <= i < |data| ::
              Mask(key, data, from)[i] == (data[i] | key[(i + from) % 4]) & !(data[i] & key[(i + from) % 4])
  {
    hide Xor;
    forall i | 0 <= i < |data|
      ensures Mask(key, data, from)[i] == (data[i] | key[(i + from) % 4]) & !(data[i] & key[(i + from) % 4])
    {
      XorBits(data[i], key[(i + from) % 4]);
    }
  }

  lemma MaskByte(key: seq<bv8>, data: seq<bv8>, i: nat)
    requires |key| == 4 && i < |data|
    ensures Mask(key, data, 0)[i] == (data[i] | key[i % 4]) & !(data[i] & key[i % 4])
  {
    hide Xor;
    XorBits(data[i], key[i % 4]);
  }

  /** A frame is refused when the top bit of its second byte is clear, or the low half of its first byte is 8. */
  lemma RefusedBits(s: seq<bv8>)
    requires |s| >= 2
    ensures IsRefused(s) <==> s[1] < 0x80 || s[0] << 4 == 0x80
  {
    LowHalf(s[0]);
    TopBit(s[1]);
  }

  lemma LowHalf(b: bv8)
    ensures b & 0x0f == 0x08 <==> b << 4 == 0x80
  {
  }

  lemma TopBit(b: bv8)
    ensures b & 0x80 == 0 <==> b < 0x80
  {
  }

  lemma MaskAppend(key: seq<bv8>, a: seq<bv8>, b: seq<bv8>)
    requires |key| == 4
    ensures Mask(key, a + b, 0) == Mask(key, a, 0) + Mask(key, b, |a|)
  {
  }

  /** A frame: what its head says, and the bytes after the head. */
  datatype Frame = Frame(frameType: bv8, key: seq<bv8>, length: nat, arrived: seq<bv8>)

  function FrameOf(s: seq<bv8>): Frame
    requires |s| >= 2 && |s| >= HeadSize(s)
  {
    Frame(Opcode(s), MaskKey(s), PayloadLength(s), s[HeadSize(s)..])
  }

  // ------------------------------------------------------------------ the codec

  datatype State = ExpectFrameHead | ExpectPayload | ParseFinished

  datatype WsReq = WsReq(frameType: bv8, payload: seq<bv8>)

  /** What a call of Decode comes to. Refused stands for the close frame sent and the connection shut down. */
  datatype Outcome = Incomplete | Refused | Request(req: WsReq)

  method ReadHead(s: seq<bv8>) returns (size: nat, length: nat, key: seq<bv8>)
    requires |s| >= 2 && |s| >= HeadSize(s)
    ensures size == HeadSize(s) && length == PayloadLength(s) && key == MaskKey(s)
  {
    hide BigEndian;
    var length7 := Length7(s);
    if length7 < 126 {
      size, length, key := 2 + 4, length7 as int, s[2..6];
    } else if length7 == 126 {
      size, length, key := 2 + 6, BigEndian(s[2..4]), s[4..8];
    } else {
      size, length, key := 2 + 12, BigEndian(s[2..10]), s[10..14];
    }
  }

  class WebsocketCodec {
    const recvBuffer: BaseBuffer<bv8>
    var state: State
    var maskKey: seq<bv8>
    var payloadRemains: nat
    var lastReadIdx: nat
    var req: WsReq

    ghost var declared: nat        // the payload length of the current frame
    ghost var consumed: seq<bv8>   // its payload bytes taken so far, as they came

    ghost predicate Valid()
      reads this, recvBuffer
    {
      && recvBuffer.Valid()
      && |maskKey| == 4
      && match state
         case ExpectFrameHead => lastReadIdx == 0 && req.payload == []
         case ExpectPayload =>
           && lastReadIdx + payloadRemains == declared
           && |consumed| == lastReadIdx
           && req.payload == Mask(maskKey, consumed, 0)
         case ParseFinished =>
           && lastReadIdx == 0 && |consumed| == declared
           && req.payload == Mask(maskKey, consumed, 0)
    }

    constructor (buffer: BaseBuffer<bv8>)
      requires buffer.Valid()
      ensures Valid() && recvBuffer == buffer && state == ExpectFrameHead
    {
      recvBuffer := buffer;
      state, maskKey, payloadRemains, lastReadIdx := ExpectFrameHead, [0, 0, 0, 0], 0, 0;
      req := WsReq(0, []);
      declared, consumed := 0, [];
    }

    /** The frame being received: its head, and the payload bytes that have arrived, with what follows them. */
    ghost function InFlight(): Frame
      requires Valid() && state != ParseFinished
      requires state == ExpectFrameHead ==>
                 HeadReadable(recvBuffer.Contents()) && !IsRefused(recvBuffer.Contents())
      reads this, recvBuffer, recvBuffer.buffer
    {
      var s := recvBuffer.Contents();
      if state == ExpectFrameHead then FrameOf(s)
      else Frame(req.frameType, maskKey, declared, consumed + s)
    }

    method DecodeFrameHead() returns (ok: bool)
      requires Valid() && state == ExpectFrameHead && HeadReadable(recvBuffer.Contents())
      modifies this, recvBuffer
      ensures Valid() && recvBuffer.buffer == old(recvBuffer.buffer)
      ensures ok == !IsRefused(old(recvBuffer.Contents()))
      ensures !ok ==> recvBuffer.Contents() == [] && state == ExpectFrameHead
      ensures ok ==> state == ExpectPayload && InFlight() == old(InFlight())
    {
      hide Opcode, Length7, MaskKey, PayloadLength, HeadSize, IsRefused;
      var s := recvBuffer.ToStringView();
      if IsRefused(s) {
        recvBuffer.DropAllBytes();
        return false;
      }
      var size, length, key := ReadHead(s);
      payloadRemains, maskKey := length, key;
      recvBuffer.DropBytes(size);
      req := req.(frameType := Opcode(s));
      state := ExpectPayload;
      declared, consumed := length, [];
      return true;
    }

    /** Unmask size bytes in place, append them to the request and drop them. */
    method TakeOver(size: nat)
      requires Valid() && state == ExpectPayload
      requires size <= payloadRemains && size <= |recvBuffer.Contents()|
      modifies `payloadRemains, `lastReadIdx, `req, `consumed, recvBuffer, recvBuffer.buffer
      ensures Valid() && recvBuffer.buffer == old(recvBuffer.buffer) && req.frameType == old(req.frameType)
      ensures payloadRemains == old(payloadRemains) - size
      ensures consumed == old(consumed) + old(recvBuffer.Contents())[..size]
      ensures recvBuffer.Contents() == old(recvBuffer.Contents())[size..]
    {
      hide Mask, Xor;
      ghost var s := recvBuffer.Contents()[..size];
      MaskAppend(maskKey, consumed, s);
      UnmaskInPlace(size);
      var view := recvBuffer.ToStringView();
      recvBuffer.DropBytes(size);
      consumed := consumed + s;
      payloadRemains, lastReadIdx := payloadRemains - size, lastReadIdx + size;
      req := req.(payload := req.payload + view[..size]);
    }

    /** True when the frame is complete: the request then holds its payload, and only its bytes are gone. */
    method DecodePayload() returns (ok: bool)
      requires Valid() && state == ExpectPayload
      modifies this, recvBuffer, recvBuffer.buffer
      ensures Valid() && recvBuffer.buffer == old(recvBuffer.buffer)
      ensures var f := old(InFlight());
              if |f.arrived| >= f.length then
                && ok && state == ParseFinished && recvBuffer.Contents() == f.arrived[f.length..]
                && req == WsReq(f.frameType, Mask(f.key, f.arrived[..f.length], 0))
              else
                !ok && state == ExpectPayload && InFlight() == f && recvBuffer.Contents() == []
    {
      hide Mask;
      ghost var f, s := InFlight(), recvBuffer.Contents();
      var readable := recvBuffer.ReadableBytes();
      var size := if readable < payloadRemains then readable else payloadRemains;
      TakeOver(size);
      assert f.arrived == consumed + s[size..];
      if payloadRemains == 0 {
        lastReadIdx := 0;
        state := ParseFinished;
        return true;
      }
      return false;
    }

    /** The loop over the first size readable bytes; the key runs on from the bytes taken before. */
    method UnmaskInPlace(size: nat)
      requires recvBuffer.Valid() && |maskKey| == 4 && size <= |recvBuffer.Contents()|
      modifies recvBuffer.buffer
      ensures recvBuffer.Contents()[..size] == Mask(maskKey, old(recvBuffer.Contents())[..size], lastReadIdx)
      ensures recvBuffer.Contents()[size..] == old(recvBuffer.Contents())[size..]
    {
      hide Xor;
      ghost var s := recvBuffer.Contents();
      for i := 0 to size
        invariant |recvBuffer.Contents()| == |s|
        invariant forall k {:trigger recvBuffer.Contents()[k]} | 0 <= k < |s| ::
            recvBuffer.Contents()[k] == if k < i then Xor(s[k], maskKey[(k + lastReadIdx) % 4]) else s[k]
      {
        var at := recvBuffer.readIdx + i;
        assert recvBuffer.Contents()[i] == recvBuffer.buffer[at];
        recvBuffer.buffer[at] := Xor(recvBuffer.buffer[at], maskKey[(i + lastReadIdx) % 4]);
      }
    }

    /**
     * One call takes exactly the bytes of one frame out of the buffer, or all bytes of an unfinished one;
     * a finished frame is delivered whole and unmasked.
     */
    method Decode() returns (out: Outcome)
      requires Valid() && state != ParseFinished
      requires state == ExpectFrameHead ==> HeadReadable(recvBuffer.Contents())
      modifies this, recvBuffer, recvBuffer.buffer
      ensures Valid() && recvBuffer.buffer == old(recvBuffer.buffer) && state != ParseFinished
      ensures out.Refused? <==> old(state) == ExpectFrameHead && IsRefused(old(recvBuffer.Contents()))
      ensures out.Refused? ==> recvBuffer.Contents() == []
      ensures !out.Refused? ==>
                var f := old(InFlight());
                if |f.arrived| >= f.length then
                  && out == Request(WsReq(f.frameType, Mask(f.key, f.arrived[..f.length], 0)))
                  && recvBuffer.Contents() == f.arrived[f.length..] && state == ExpectFrameHead
                else
                  out == Incomplete && state == ExpectPayload && InFlight() == f && recvBuffer.Contents() == []
    {
      hide Opcode, Length7, MaskKey, PayloadLength, HeadSize, IsRefused, Mask;
      ghost var refused := state == ExpectFrameHead && IsRefused(recvBuffer.Contents());
      ghost var f := if refused then Frame(0, maskKey, 0, []) else InFlight();
      while true
        invariant Valid() && recvBuffer.buffer == old(recvBuffer.buffer)
        invariant state == ExpectFrameHead ==>
                    HeadReadable(recvBuffer.Contents()) && IsRefused(recvBuffer.Contents()) == refused
        invariant refused ==> state == ExpectFrameHead
        invariant !refused && state != ParseFinished ==> InFlight() == f
        invariant state == ParseFinished ==>
                    && |f.arrived| >= f.length && recvBuffer.Contents() == f.arrived[f.length..]
                    && req == WsReq(f.frameType, Mask(f.key, f.arrived[..f.length], 0))
        decreases match state case ExpectFrameHead => 2 case ExpectPayload => 1 case ParseFinished => 0
      {
        match state {
          case ExpectFrameHead =>
            var ok := DecodeFrameHead();
            if !ok {
              return Refused;
            }
          case ExpectPayload =>
            var ok := DecodePayload();
            if !ok {
              return Incomplete;
            }
          case ParseFinished =>
            state := ExpectFrameHead;
            out := Request(req);
            req := req.(payload := []);
            return;
        }
      }
    }
  }

  // -------------------------------------------------------------- every chunking

  /** A complete head reads the same whatever follows it. */
  lemma HeadOfPrefix(a: seq<bv8>, b: seq<bv8>)
    requires HeadReadable(a)
    ensures HeadReadable(a + b) && IsRefused(a + b) == IsRefused(a)
    ensures !IsRefused(a) ==> FrameOf(a + b) == FrameOf(a).(arrived := FrameOf(a).arrived + b)
  {
    hide BigEndian;
    if !IsRefused(a) {
      var n := HeadSize(a);
      assert (a + b)[n - 4..n] == a[n - 4..n];
      assert (a + b)[2..4] == a[2..4];
      assert n == 14 ==> (a + b)[2..10] == a[2..10];
    }
  }

  /** What is to come of the bytes s of one frame and of whatever follows it. */
  function Delivery(s: seq<bv8>): Outcome
    requires HeadReadable(s)
  {
    if IsRefused(s) then Refused
    else
      var f := FrameOf(s);
      if |f.arrived| < f.length then Incomplete
      else Request(WsReq(f.frameType, Mask(f.key, f.arrived[..f.length], 0)))
  }

  /** More bytes do not change what a complete frame delivers. */
  lemma DeliveryOfPrefix(a: seq<bv8>, b: seq<bv8>)
    requires HeadReadable(a)
    ensures HeadReadable(a + b)
    ensures Delivery(a) != Incomplete ==> Delivery(a + b) == Delivery(a)
  {
    HeadOfPrefix(a, b);
    hide HeadReadable, IsRefused, HeadSize, Opcode, Length7, MaskKey, PayloadLength;
    if !IsRefused(a) && |FrameOf(a).arrived| >= FrameOf(a).length {
      assert (FrameOf(a).arrived + b)[..FrameOf(a).length] == FrameOf(a).arrived[..FrameOf(a).length];
    }
  }

  /** One more piece, and one more call of Decode; before is what arrived until then, of an unfinished frame. */
  method ReceivePiece(codec: WebsocketCodec, chunk: seq<bv8>, ghost before: seq<bv8>)
    returns (out: Outcome)
    requires codec.Valid()
    requires if before == [] then
               codec.state == ExpectFrameHead && codec.recvBuffer.Contents() == [] && HeadReadable(chunk)
             else
               codec.state == ExpectPayload && HeadReadable(before) && !IsRefused(before)
               && codec.InFlight() == FrameOf(before)
    modifies codec, codec.recvBuffer, codec.recvBuffer.buffer
    ensures codec.Valid()
    ensures codec.recvBuffer.buffer == old(codec.recvBuffer.buffer) || fresh(codec.recvBuffer.buffer)
    ensures HeadReadable(before + chunk) && out == Delivery(before + chunk)
    ensures out == Incomplete ==> codec.state == ExpectPayload && codec.InFlight() == FrameOf(before + chunk)
    ensures out.Request? ==>
              var f := FrameOf(before + chunk);
              codec.recvBuffer.Contents() == f.arrived[f.length..]
  {
    hide IsRefused, HeadSize, Opcode, Length7, MaskKey, PayloadLength, Mask;
    codec.recvBuffer.Append(chunk);
    if codec.state == ExpectFrameHead {
      assert before + chunk == chunk;
    } else {
      HeadOfPrefix(before, chunk);
      assert codec.consumed + (old(codec.recvBuffer.Contents()) + chunk)
             == codec.consumed + old(codec.recvBuffer.Contents()) + chunk;
    }
    out := codec.Decode();
  }

  /**
   * A frame that arrives in pieces, the first of which holds its whole head: wherever the stream is cut, what is
   * delivered is what the whole stream has to deliver, and exactly the bytes after the frame stay in the buffer.
   */
  method ReceiveFrame(chunks: seq<seq<bv8>>) returns (out: Outcome, used: nat, unread: seq<bv8>)
    requires chunks != [] && HeadReadable(chunks[0])
    ensures HeadReadable(Flatten(chunks)) && out == Delivery(Flatten(chunks))
    ensures 1 <= used <= |chunks| && (out == Incomplete ==> used == |chunks|)
    ensures out.Request? ==>
              var s := Flatten(chunks[..used]);
              && HeadReadable(s) && !IsRefused(s)
              && |FrameOf(s).arrived| >= FrameOf(s).length && unread == FrameOf(s).arrived[FrameOf(s).length..]
  {
    hide IsRefused, HeadSize, Opcode, Length7, MaskKey, PayloadLength, Mask;
    var buffer := new BaseBuffer(1024);
    var codec := new WebsocketCodec(buffer);
    used := 0;
    out := Incomplete;
    ghost var arrived: seq<bv8> := [];
    while used < |chunks| && out == Incomplete
      invariant 0 <= used <= |chunks| && arrived == Flatten(chunks[..used])
      invariant codec.recvBuffer == buffer && codec.Valid()
      invariant fresh(codec) && fresh(buffer) && fresh(buffer.buffer)
      invariant used == 0 ==> codec.state == ExpectFrameHead && buffer.Contents() == [] && out == Incomplete
      invariant used > 0 ==> arrived != [] && HeadReadable(arrived) && out == Delivery(arrived)
      invariant used > 0 && out == Incomplete ==>
          codec.state == ExpectPayload && codec.InFlight() == FrameOf(arrived)
      invariant used > 0 && out.Request? ==>
          buffer.Contents() == FrameOf(arrived).arrived[FrameOf(arrived).length..]
    {
      FlattenNext(chunks, used);
      assert used == 0 ==> arrived + chunks[used] == chunks[used];
      out := ReceivePiece(codec, chunks[used], arrived);
      arrived := arrived + chunks[used];
      used := used + 1;
    }
    unread := buffer.ToStringView();
    FlattenPrefix(chunks, used);
    assert Flatten(chunks) == arrived + Flatten(chunks)[|arrived|..];
    DeliveryOfPrefix(arrived, Flatten(chunks)[|arrived|..]);
    assert used == |chunks| ==> chunks[..used] == chunks;
  }

  // ---------------------------------------------------------- what a client sends

  function Power256(w: nat): (p: nat)
    ensures p > 0
  {
    if w == 0 then 1 else 256 * Power256(w - 1)
  }

  function ToBigEndian(n: nat, width: nat): (s: seq<bv8>)
    requires n < Power256(width)
    ensures |s| == width
  {
    if width == 0 then [] else ToBigEndian(n / 256, width - 1) + [ToByte(n % 256)]
  }

  lemma {:induction false} BigEndianInverse(n: nat, width: nat)
    requires n < Power256(width)
    ensures BigEndian(ToBigEndian(n, width)) == n
  {
    hide BigEndian, ToByte;
    if width == 0 {
      assert BigEndian([]) == 0 by { BigEndianEmpty(); }
    } else {
      BigEndianInverse(n / 256, width - 1);
      BigEndianSnoc(ToBigEndian(n / 256, width - 1), n % 256);
    }
  }

  lemma BigEndianEmpty()
    ensures BigEndian([]) == 0
  {
  }

  lemma BigEndianSnoc(front: seq<bv8>, n: nat)
    requires n < 256
    ensures BigEndian(front + [ToByte(n)]) == 256 * BigEndian(front) + n
  {
    hide ToByte, Value;
    ByteValue(n);
    assert (front + [ToByte(n)])[..|front|] == front;
  }

  /** The second byte of a masked frame. */
  function MaskedLength(n: nat): bv8
    requires n < 128
  {
    0x80 | ToByte(n)
  }

  lemma MaskedLengthBits(n: nat)
    requires n < 128
    ensures MaskedLength(n) & 0x80 != 0 && (MaskedLength(n) & 0x7f) as int == n
  {
    hide ToByte;
    ByteValue(n);
    LowBits(ToByte(n));
  }

  lemma LowBits(b: bv8)
    requires b < 128
    ensures (0x80 | b) & 0x80 != 0 && (0x80 | b) & 0x7f == b
  {
  }

  /** The shortest of the three length forms. */
  function LengthField(n: nat): (s: seq<bv8>)
    requires n < Power256(8)
    ensures |s| >= 1
  {
    if n < 126 then [MaskedLength(n)]
    else if n < Power256(2) then [MaskedLength(126)] + ToBigEndian(n, 2)
    else [MaskedLength(127)] + ToBigEndian(n, 8)
  }

  function ClientFrame(first: bv8, key: seq<bv8>, payload: seq<bv8>): (s: seq<bv8>)
    requires |key| == 4 && |payload| < Power256(8)
  {
    [first] + LengthField(|payload|) + key + Mask(key, payload, 0)
  }

  /** The head of a client's frame is read back as it was written. */
  lemma ClientHead(first: bv8, key: seq<bv8>, payload: seq<bv8>, rest: seq<bv8>)
    requires |key| == 4 && |payload| < Power256(8) && first & 0x0f != CLOSE
    ensures var s := ClientFrame(first, key, payload) + rest;
            && HeadReadable(s) && !IsRefused(s)
            && FrameOf(s) == Frame(first & 0x0f, key, |payload|, Mask(key, payload, 0) + rest)
  {
    hide Mask, BigEndian, ToBigEndian, MaskedLength, Power256;
    var n := |payload|;
    var s := ClientFrame(first, key, payload) + rest;
    var head := [first] + LengthField(n) + key;
    assert s == head + (Mask(key, payload, 0) + rest);
    MaskedLengthBits(if n < 126 then n else if n < Power256(2) then 126 else 127);
    assert s[0] == first && s[1] == LengthField(n)[0];
    assert HeadSize(s) == |head|;
    assert s[HeadSize(s) - 4..HeadSize(s)] == key;
    if n >= 126 {
      var width := if n < Power256(2) then 2 else 8;
      BigEndianInverse(n, width);
      assert s[2..2 + width] == ToBigEndian(n, width);
    }
  }

  /** A client's frame that has arrived whole, whatever follows it, delivers its payload. */
  lemma ClientFrameDelivered(first: bv8, key: seq<bv8>, payload: seq<bv8>, rest: seq<bv8>)
    requires |key| == 4 && |payload| < Power256(8) && first & 0x0f != CLOSE
    ensures HeadReadable(ClientFrame(first, key, payload) + rest)
    ensures Delivery(ClientFrame(first, key, payload) + rest) == Request(WsReq(first & 0x0f, payload))
  {
    hide HeadReadable, IsRefused, HeadSize, Opcode, Length7, MaskKey, PayloadLength, Mask, ClientFrame;
    ClientHead(first, key, payload, rest);
    var masked := Mask(key, payload, 0);
    assert (masked + rest)[..|payload|] == masked;
    MaskInvolution(key, payload);
  }

  // ------------------------------------------------------------ streams of frames

  /** The stream begins with a frame that is there whole and not refused. */
  predicate Whole(s: seq<bv8>)
  {
    HeadReadable(s) && !IsRefused(s) && |FrameOf(s).arrived| >= FrameOf(s).length
  }

  function FirstRequest(s: seq<bv8>): WsReq
    requires Whole(s)
  {
    var f := FrameOf(s);
    WsReq(f.frameType, Mask(f.key, f.arrived[..f.length], 0))
  }

  function AfterFirst(s: seq<bv8>): seq<bv8>
    requires Whole(s)
  {
    FrameOf(s).arrived[FrameOf(s).length..]
  }

  /** The stream begins with n whole frames. */
  predicate Holds(s: seq<bv8>, n: nat)
  {
    n == 0 || (Whole(s) && Holds(AfterFirst(s), n - 1))
  }

  /** The requests of the first n frames, in order. */
  function Requests(s: seq<bv8>, n: nat): seq<WsReq>
    requires Holds(s, n)
  {
    if n == 0 then [] else [FirstRequest(s)] + Requests(AfterFirst(s), n - 1)
  }

  /** What follows them. */
  function Rest(s: seq<bv8>, n: nat): seq<bv8>
    requires Holds(s, n)
  {
    if n == 0 then s else Rest(AfterFirst(s), n - 1)
  }

  lemma WholeInPrefix(s: seq<bv8>, t: seq<bv8>)
    requires Whole(s)
    ensures Whole(s + t) && FirstRequest(s + t) == FirstRequest(s) && AfterFirst(s + t) == AfterFirst(s) + t
  {
    hide IsRefused, HeadSize, Opcode, Length7, MaskKey, PayloadLength, Mask;
    HeadOfPrefix(s, t);
    var f := FrameOf(s);
    assert (f.arrived + t)[..f.length] == f.arrived[..f.length];
  }

  /** More bytes change nothing about the frames that are there. */
  lemma {:induction false} MoreBytes(s: seq<bv8>, t: seq<bv8>, n: nat)
    requires Holds(s, n)
    ensures Holds(s + t, n) && Requests(s + t, n) == Requests(s, n) && Rest(s + t, n) == Rest(s, n) + t
    decreases n
  {
    hide Whole, FirstRequest, AfterFirst;
    if n > 0 {
      WholeInPrefix(s, t);
      MoreBytes(AfterFirst(s), t, n - 1);
    }
  }

  lemma {:induction false} OneMoreFrame(s: seq<bv8>, n: nat)
    requires Holds(s, n) && Whole(Rest(s, n))
    ensures Holds(s, n + 1)
    ensures Requests(s, n + 1) == Requests(s, n) + [FirstRequest(Rest(s, n))]
    ensures Rest(s, n + 1) == AfterFirst(Rest(s, n))
    decreases n
  {
    hide Whole, FirstRequest, AfterFirst;
    if n > 0 {
      OneMoreFrame(AfterFirst(s), n - 1);
    }
  }

  /** Bytes arrive, or Decode is called. */
  datatype Event = Arrive(bytes: seq<bv8>) | Call

  /** How far a codec has come: what arrived, how many frames it handed out, whether it is within one or refused one. */
  datatype Progress = Progress(arrived: seq<bv8>, handed: nat, within: bool, refused: bool)

  ghost predicate Sound(p: Progress)
  {
    && Holds(p.arrived, p.handed)
    && (p.within ==> HeadReadable(Rest(p.arrived, p.handed)) && !IsRefused(Rest(p.arrived, p.handed)))
  }

  /** A call finds a complete head, or the codec within a frame; none is made after a refusal. */
  predicate MayCall(p: Progress)
    requires Holds(p.arrived, p.handed)
  {
    !p.refused && (p.within || HeadReadable(Rest(p.arrived, p.handed)))
  }

  /** What the next call of Decode comes to. */
  function AfterCall(p: Progress): Progress
    requires Sound(p) && MayCall(p)
  {
    var rest := Rest(p.arrived, p.handed);
    if IsRefused(rest) then p.(refused := true)
    else if Whole(rest) then p.(handed := p.handed + 1, within := false)
    else p.(within := true)
  }

  /** The caller waits when it may not call. */
  function Step(p: Progress, e: Event): Progress
    requires Sound(p)
  {
    match e
    case Arrive(bytes) => p.(arrived := p.arrived + bytes)
    case Call => if MayCall(p) then AfterCall(p) else p
  }

  lemma StepIsSound(p: Progress, e: Event)
    requires Sound(p)
    ensures Sound(Step(p, e))
  {
    hide HeadReadable, IsRefused, FirstRequest, AfterFirst;
    match e
    case Arrive(bytes) =>
      MoreBytes(p.arrived, bytes, p.handed);
      if p.within {
        HeadOfPrefix(Rest(p.arrived, p.handed), bytes);
      }
    case Call =>
      if Whole(Rest(p.arrived, p.handed)) {
        OneMoreFrame(p.arrived, p.handed);
      }
  }

  function Progressed(events: seq<Event>): (p: Progress)
    ensures Sound(p)
  {
    if events == [] then Progress([], 0, false, false)
    else
      var p := Progressed(events[..|events| - 1]);
      StepIsSound(p, events[|events| - 1]);
      Step(p, events[|events| - 1])
  }

  /** The codec is where p says. */
  ghost predicate StandsAt(codec: WebsocketCodec, p: Progress)
    requires Sound(p)
    reads codec, codec.recvBuffer, codec.recvBuffer.buffer
  {
    && codec.Valid() && codec.state != ParseFinished
    && (!p.refused ==>
          var rest := Rest(p.arrived, p.handed);
          if p.within then codec.state == ExpectPayload && codec.InFlight() == FrameOf(rest)
          else codec.state == ExpectFrameHead && codec.recvBuffer.Contents() == rest)
  }

  method ArriveAt(codec: WebsocketCodec, bytes: seq<bv8>, ghost p: Progress)
    requires Sound(p) && StandsAt(codec, p)
    modifies codec.recvBuffer, codec.recvBuffer.buffer
    ensures codec.recvBuffer.buffer == old(codec.recvBuffer.buffer) || fresh(codec.recvBuffer.buffer)
    ensures Sound(Step(p, Arrive(bytes))) && StandsAt(codec, Step(p, Arrive(bytes)))
  {
    hide HeadReadable, IsRefused, HeadSize, Opcode, Length7, MaskKey, PayloadLength, Mask, Whole, FirstRequest, AfterFirst;
    StepIsSound(p, Arrive(bytes));
    MoreBytes(p.arrived, bytes, p.handed);
    ghost var s := codec.recvBuffer.Contents();
    codec.recvBuffer.Append(bytes);
    if p.within {
      HeadOfPrefix(Rest(p.arrived, p.handed), bytes);
      assert codec.consumed + (s + bytes) == codec.consumed + s + bytes;
    }
  }

  method CallAt(codec: WebsocketCodec, ghost p: Progress) returns (out: Outcome)
    requires Sound(p) && StandsAt(codec, p) && MayCall(p)
    modifies codec, codec.recvBuffer, codec.recvBuffer.buffer
    ensures codec.recvBuffer.buffer == old(codec.recvBuffer.buffer)
    ensures Sound(AfterCall(p)) && StandsAt(codec, AfterCall(p))
    ensures out.Refused? == AfterCall(p).refused
    ensures Requests(AfterCall(p).arrived, AfterCall(p).handed)
            == Requests(p.arrived, p.handed) + if out.Request? then [out.req] else []
  {
    hide HeadSize, Opcode, Length7, MaskKey, PayloadLength, Mask;
    StepIsSound(p, Call);
    ghost var rest := Rest(p.arrived, p.handed);
    if Whole(rest) {
      OneMoreFrame(p.arrived, p.handed);
    }
    out := codec.Decode();
  }

  /** One event, with a caller that waits when it may not call. */
  method StreamEvent(codec: WebsocketCodec, e: Event, refused: bool, ghost p: Progress)
    returns (got: seq<WsReq>, nowRefused: bool)
    requires Sound(p) && StandsAt(codec, p) && refused == p.refused
    modifies codec, codec.recvBuffer, codec.recvBuffer.buffer
    ensures codec.recvBuffer.buffer == old(codec.recvBuffer.buffer) || fresh(codec.recvBuffer.buffer)
    ensures Sound(Step(p, e)) && StandsAt(codec, Step(p, e)) && nowRefused == Step(p, e).refused
    ensures Requests(Step(p, e).arrived, Step(p, e).handed) == Requests(p.arrived, p.handed) + got
  {
    hide HeadReadable, IsRefused, Whole, FirstRequest, AfterFirst, FrameOf, Rest, AfterCall;
    got, nowRefused := [], refused;
    match e {
      case Arrive(bytes) =>
        ArriveAt(codec, bytes, p);
        MoreBytes(p.arrived, bytes, p.handed);
      case Call =>
        var s := codec.recvBuffer.ToStringView();
        if !refused && (codec.state == ExpectPayload || HeadReadable(s)) {
          var out := CallAt(codec, p);
          got := if out.Request? then [out.req] else [];
          nowRefused := out.Refused?;
        }
    }
  }

  lemma OneEvent(events: seq<Event>, i: nat)
    requires i < |events|
    ensures Progressed(events[..i + 1]) == Step(Progressed(events[..i]), events[i])
  {
    assert events[..i + 1][..i] == events[..i];
  }

  lemma NoEvents(events: seq<Event>)
    ensures Progressed(events[..0]) == Progress([], 0, false, false)
    ensures Holds([], 0) && Requests([], 0) == [] && Rest([], 0) == []
  {
  }

  /**
   * However the bytes of a stream of frames arrive, and whenever Decode is called with a complete head there or
   * within a frame: the requests handed out are those of the first frames of the stream, in order, one for each
   * call that completes a frame, and between frames exactly the rest of the stream is unread.
   */
  method ReceiveStream(events: seq<Event>) returns (requests: seq<WsReq>, refused: bool, unread: seq<bv8>)
    ensures var p := Progressed(events);
            && requests == Requests(p.arrived, p.handed) && refused == p.refused
            && (!p.refused && !p.within ==> unread == Rest(p.arrived, p.handed))
  {
    hide HeadReadable, IsRefused, Whole, FirstRequest, AfterFirst, Step, Requests, Rest, FrameOf, Progressed;
    var buffer := new BaseBuffer(1024);
    var codec := new WebsocketCodec(buffer);
    requests, refused := [], false;
    NoEvents(events);
    ghost var p := Progressed(events[..0]);
    for i := 0 to |events|
      invariant codec.recvBuffer == buffer && fresh(codec) && fresh(buffer) && fresh(buffer.buffer)
      invariant p == Progressed(events[..i]) && refused == p.refused
      invariant StandsAt(codec, p) && requests == Requests(p.arrived, p.handed)
    {
      var got;
      got, refused := StreamEvent(codec, events[i], refused, p);
      requests := requests + got;
      OneEvent(events, i);
      p := Progressed(events[..i + 1]);
    }
    assert events[..|events|] == events;
    unread := buffer.ToStringView();
  }

  // ---------------------------------------------------------- streams of a client

  datatype Message = Message(first: bv8, key: seq<bv8>, payload: seq<bv8>)

  predicate Sendable(m: Message)
  {
    |m.key| == 4 && |m.payload| < Power256(8) && m.first & 0x0f != CLOSE
  }

  function FrameBytes(m: Message): seq<bv8>
    requires Sendable(m)
  {
    ClientFrame(m.first, m.key, m.payload)
  }

  function StreamOf(ms: seq<Message>): seq<bv8>
    requires forall m | m in ms :: Sendable(m)
  {
    if ms == [] then [] else FrameBytes(ms[0]) + StreamOf(ms[1..])
  }

  function RequestsOf(ms: seq<Message>): seq<WsReq>
  {
    if ms == [] then [] else [WsReq(ms[0].first & 0x0f, ms[0].payload)] + RequestsOf(ms[1..])
  }

  lemma ClientFrameFirst(m: Message, rest: seq<bv8>)
    requires Sendable(m)
    ensures var s := FrameBytes(m) + rest;
            Whole(s) && FirstRequest(s) == WsReq(m.first & 0x0f, m.payload) && AfterFirst(s) == rest
  {
    hide HeadReadable, IsRefused, HeadSize, Opcode, Length7, MaskKey, PayloadLength, Mask, ClientFrame;
    ClientHead(m.first, m.key, m.payload, rest);
    ClientFrameDelivered(m.first, m.key, m.payload, rest);
    var masked := Mask(m.key, m.payload, 0);
    assert (masked + rest)[|m.payload|..] == rest;
  }

  /** The frames of a client's stream are its messages, whatever follows them. */
  lemma {:induction false} ClientStream(ms: seq<Message>, rest: seq<bv8>)
    requires forall m | m in ms :: Sendable(m)
    ensures var s := StreamOf(ms) + rest;
            Holds(s, |ms|) && Requests(s, |ms|) == RequestsOf(ms) && Rest(s, |ms|) == rest
    decreases |ms|
  {
    hide Whole, FirstRequest, AfterFirst, FrameBytes, Sendable;
    var s := StreamOf(ms) + rest;
    if ms == [] {
      assert s == rest;
    } else {
      var tail := StreamOf(ms[1..]) + rest;
      assert s == FrameBytes(ms[0]) + tail;
      ClientFrameFirst(ms[0], tail);
      ClientStream(ms[1..], rest);
    }
  }

  // --------------------------------------------- what is on the wire, byte by byte

  /** The three forms of the head: where the payload starts, and how long it is. */
  function PayloadStart(second: nat): nat
  {
    if second < 126 then 6 else if second == 126 then 8 else 14
  }

  function WireLength(s: seq<bv8>, second: nat): nat
    requires |s| >= PayloadStart(second)
  {
    if second < 126 then second
    else if second == 126 then 0x100 * Value(s[2]) + Value(s[3])
    else
      0x100_0000_0000_0000 * Value(s[2]) + 0x1_0000_0000_0000 * Value(s[3]) + 0x100_0000_0000 * Value(s[4])
      + 0x1_0000_0000 * Value(s[5]) + 0x100_0000 * Value(s[6]) + 0x1_0000 * Value(s[7]) + 0x100 * Value(s[8])
      + Value(s[9])
  }

  lemma LastDigit(s: seq<bv8>, n: nat)
    requires n < |s|
    ensures BigEndian(s[..n + 1]) == 0x100 * BigEndian(s[..n]) + Value(s[n])
  {
    assert s[..n + 1][..n] == s[..n];
  }

  lemma TwoDigits(s: seq<bv8>)
    requires |s| == 2
    ensures BigEndian(s) == 0x100 * Value(s[0]) + Value(s[1])
  {
    hide BigEndian, Value;
    BigEndianEmpty();
    assert s[..0] == [] && s[..2] == s;
    LastDigit(s, 0);
    LastDigit(s, 1);
  }

  lemma FourMoreDigits(s: seq<bv8>, n: nat)
    requires n + 4 <= |s|
    ensures BigEndian(s[..n + 4])
            == 0x1_0000_0000 * BigEndian(s[..n]) + 0x100_0000 * Value(s[n]) + 0x1_0000 * Value(s[n + 1])
               + 0x100 * Value(s[n + 2]) + Value(s[n + 3])
  {
    hide BigEndian, Value;
    LastDigit(s, n);
    LastDigit(s, n + 1);
    LastDigit(s, n + 2);
    LastDigit(s, n + 3);
  }

  lemma EightDigits(s: seq<bv8>)
    requires |s| == 8
    ensures BigEndian(s)
            == 0x100_0000_0000_0000 * Value(s[0]) + 0x1_0000_0000_0000 * Value(s[1]) + 0x100_0000_0000 * Value(s[2])
               + 0x1_0000_0000 * Value(s[3]) + 0x100_0000 * Value(s[4]) + 0x1_0000 * Value(s[5]) + 0x100 * Value(s[6])
               + Value(s[7])
  {
    hide BigEndian, Value;
    BigEndianEmpty();
    assert s[..0] == [] && s[..8] == s;
    FourMoreDigits(s, 0);
    FourMoreDigits(s, 4);
  }

  lemma SecondByte(b: bv8)
    requires b & 0x80 != 0
    ensures Value(b) >= 128 && (b & 0x7f) as int == Value(b) - 128
  {
  }

  /** The head of a frame that is not refused, byte by byte. */
  lemma HeadBytes(s: seq<bv8>)
    requires HeadReadable(s) && !IsRefused(s)
    ensures Value(s[1]) >= 128
    ensures var second := Value(s[1]) - 128;
            var start := PayloadStart(second);
            && |s| >= start && FrameOf(s).length == WireLength(s, second)
            && FrameOf(s).key == s[start - 4..start] && FrameOf(s).arrived == s[start..]
            && FrameOf(s).frameType == s[0] & 0x0f
  {
    hide BigEndian, Value;
    SecondByte(s[1]);
    if Length7(s) == 126 {
      TwoDigits(s[2..4]);
    } else if Length7(s) > 126 {
      EightDigits(s[2..10]);
    }
  }

  /**
   * The request of a whole frame, byte by byte: every payload byte is the byte on the wire with the bits of the
   * key byte at its index modulo 4 turned over, and what follows the payload is left.
   */
  lemma DeliveredBytes(s: seq<bv8>)
    requires Whole(s)
    ensures Value(s[1]) >= 128 && |s| >= PayloadStart(Value(s[1]) - 128)
    ensures var start := PayloadStart(Value(s[1]) - 128);
            var n := WireLength(s, Value(s[1]) - 128);
            var r := FirstRequest(s);
            && |s| >= start + n && |r.payload| == n && r.frameType == s[0] & 0x0f && AfterFirst(s) == s[start + n..]
            && forall i | 0 <= i < n ::
                 r.payload[i] == (s[start + i] | s[start - 4 + i % 4]) & !(s[start + i] & s[start - 4 + i % 4])
  {
    hide Mask, Value, WireLength, IsRefused, HeadSize, Opcode, MaskKey, PayloadLength, Length7;
    HeadBytes(s);
    var f := FrameOf(s);
    var data := f.arrived[..f.length];
    forall i | 0 <= i < |data|
      ensures Mask(f.key, data, 0)[i] == (data[i] | f.key[i % 4]) & !(data[i] & f.key[i % 4])
    {
      MaskByte(f.key, data, i);
    }
  }

  lemma ClientHeadBytes(first: bv8, key: seq<bv8>, payload: seq<bv8>)
    requires |key| == 4 && |payload| < Power256(8) && first & 0x0f != CLOSE
    ensures var s, n := ClientFrame(first, key, payload), |payload|;
            var second := if n < 126 then n else if n < 0x1_0000 then 126 else 127;
            var start := PayloadStart(second);
            && |s| >= start && s[0] == first && Value(s[1]) == 128 + second
            && WireLength(s, second) == n && s[start - 4..start] == key && s[start..] == Mask(key, payload, 0)
  {
    hide Mask, IsRefused, HeadSize, Opcode, MaskKey, PayloadLength, Length7, WireLength, Power256, ClientFrame, Value;
    var s, masked := ClientFrame(first, key, payload), Mask(key, payload, 0);
    assert s + [] == s && masked + [] == masked;
    ClientHead(first, key, payload, []);
    HeadBytes(s);
    ClientSecond(first, key, payload);
  }

  /** What a client puts on the wire, byte by byte, in each of the three forms. */
  lemma ClientFrameBytes(first: bv8, key: seq<bv8>, payload: seq<bv8>)
    requires |key| == 4 && |payload| < Power256(8) && first & 0x0f != CLOSE
    ensures var s, n := ClientFrame(first, key, payload), |payload|;
            var second := if n < 126 then n else if n < 0x1_0000 then 126 else 127;
            var start := PayloadStart(second);
            && |s| == start + n && s[0] == first && Value(s[1]) == 128 + second
            && WireLength(s, second) == n && s[start - 4..start] == key
            && forall i | 0 <= i < n :: s[start + i] == (payload[i] | key[i % 4]) & !(payload[i] & key[i % 4])
  {
    hide Mask, WireLength, Power256, ClientFrame, Value;
    var s, masked := ClientFrame(first, key, payload), Mask(key, payload, 0);
    ClientHeadBytes(first, key, payload);
    AtOffset(s, masked, |s| - |masked|);
    forall i | 0 <= i < |payload|
      ensures masked[i] == (payload[i] | key[i % 4]) & !(payload[i] & key[i % 4])
    {
      MaskByte(key, payload, i);
    }
  }

  lemma AtOffset(s: seq<bv8>, tail: seq<bv8>, start: nat)
    requires start <= |s| && s[start..] == tail
    ensures |s| == start + |tail| && forall i | 0 <= i < |tail| :: s[start + i] == tail[i]
  {
  }

  lemma ClientSecond(first: bv8, key: seq<bv8>, payload: seq<bv8>)
    requires |key| == 4 && |payload| < Power256(8)
    ensures var s, n := ClientFrame(first, key, payload), |payload|;
            |s| >= 2 && s[0] == first
            && Value(s[1]) == 128 + if n < 126 then n else if n < 0x1_0000 then 126 else 127
  {
    hide Mask, ToBigEndian, MaskedLength;
    assert Power256(2) == 0x1_0000;
    var n := |payload|;
    var second := if n < 126 then n else if n < Power256(2) then 126 else 127;
    assert LengthField(n)[0] == MaskedLength(second);
    MaskedLengthBits(second);
    SecondByte(MaskedLength(second));
  }
}
