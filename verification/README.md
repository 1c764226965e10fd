# Jerry: a model of its byte streams, hashes and lock-protected protocols

Jerry is a small reactor network library. This project models the parts of it whose correctness is not
visible in any single function, and proves them for every input, every way the network may cut a byte
stream, and every interleaving of threads:

- **Hashes** (`Md5`, `Sha1`, over `Words` and `Blocks`). RFC 1321 and FIPS PUB 180-1 are written down as
  recursive functions on whole messages. The streaming objects, with their 64-byte buffers, split counters,
  carries and padding branches, are proved to compute them for every division of the message into calls.
  The 64 unrolled, register-renaming steps of `md5_process` are proved equal to the rotating loop of the RFC.
- **Base64** (`Base64`). Both bit-shuffling loops against functions on byte strings; decoding undoes encoding
  for all byte strings, and encoding undoes decoding exactly on the canonical strings of RFC 4648.
- **The byte queue** (`Buffers`). The read/write-index array with its leftward move and its reallocation
  refines a plain sequence over every run of operations, within a capacity bound.
- **Its clients** (`TcpConn`, `Websocket`, `WsAccept`, `Http`). The send path is a FIFO that never loses
  write interest; frame decoding and header decoding do not depend on how the bytes were cut; wire texts
  of requests and frames read back.
- **The asynchronous log** (`AsyncLog`). Appenders and the flush thread as interleaved steps that move buffers
  between owners: nothing is lost, doubled or reordered, no pointer is null where it is used.
- **Task lifecycles** (`ThreadPool`, `TimerQueue`, over `Registry` and `Traces`). Each is a class whose methods are the
  critical sections. What they do is a trace of happenings (`Traces`); every trace any schedule can produce is shown to
  be legal for a small transition system, and the guarantees are theorems about all legal traces.

Bytes are `bv8`, 32-bit registers `bv32`; counters are numbers whose wrap-around is written out. Clock
readings, what the kernel returns for a read or a write, which of several maximal entries a
`std::priority_queue` puts on top, and what a stop condition returns are parameters.

Where code and documentation disagree the model follows the code:

- `TimerCmp` puts the *latest* expiry on top (`src/net/TimerQueue.h:107-109`) and the pop loop compares its
  index with a shrinking size. `TimerQueue.PopsAllExpired` says exactly when a timeout nevertheless pops all
  expired timers.
- A timer with a stop condition is described as repeatable (`src/net/TimerQueue.h:75-94`), but is created with
  no repetitions; by `TimerQueue.AtMostAsked` it runs at most once.
- `is_body_truncated` is never set (`src/proto/http/HttpReqDecoder.cc:140-143`); `Http.TruncationFlag` says
  exactly when the flag is right.
- Seven readable bytes without a space are dropped as junk although `OPTIONS` has seven letters
  (`src/proto/http/HttpReqDecoder.cc:67-74`); `Http.DroppedPrefix` and `Http.PrefixDropped` say exactly which
  cuts are affected.

## Model

| member | source | states |
|---|---|---|
| Words.PlusZero | 3rdparty/crypto/md5.c:203-205 | the addition of the hashes: adding nothing |
| Words.PlusNext | 3rdparty/crypto/md5.c:203-205 | the addition of the hashes: adding one more, modulo 2^32 |
| Words.CounterBytes | 3rdparty/crypto/md5.c:373-374 | the four bytes of a counter word, least significant first, add up to it |
| Words.RegisterByte0 | 3rdparty/crypto/md5.c:379-380 | byte 0 of a register is its bits 0 to 7 |
| Words.RegisterByte1 | 3rdparty/crypto/md5.c:379-380 | byte 1 of a register is its bits 8 to 15 |
| Words.RegisterByte2 | 3rdparty/crypto/md5.c:379-380 | byte 2 of a register is its bits 16 to 23 |
| Words.RegisterByte3 | 3rdparty/crypto/md5.c:379-380 | byte 3 of a register is its bits 24 to 31 |
| Words.Rotation1 | 3rdparty/crypto/sha1.cpp:587-590 | rotating left by 1 puts the low 31 bits on top, in order, and the high 1 bits below them |
| Words.Rotation4 | 3rdparty/crypto/md5.c:197 | rotating left by 4 puts the low 28 bits on top, in order, and the high 4 bits below them |
| Words.Rotation5 | 3rdparty/crypto/md5.c:197 | rotating left by 5 puts the low 27 bits on top, in order, and the high 5 bits below them |
| Words.Rotation6 | 3rdparty/crypto/md5.c:197 | rotating left by 6 puts the low 26 bits on top, in order, and the high 6 bits below them |
| Words.Rotation7 | 3rdparty/crypto/md5.c:197 | rotating left by 7 puts the low 25 bits on top, in order, and the high 7 bits below them |
| Words.Rotation9 | 3rdparty/crypto/md5.c:197 | rotating left by 9 puts the low 23 bits on top, in order, and the high 9 bits below them |
| Words.Rotation10 | 3rdparty/crypto/md5.c:197 | rotating left by 10 puts the low 22 bits on top, in order, and the high 10 bits below them |
| Words.Rotation11 | 3rdparty/crypto/md5.c:197 | rotating left by 11 puts the low 21 bits on top, in order, and the high 11 bits below them |
| Words.Rotation12 | 3rdparty/crypto/md5.c:197 | rotating left by 12 puts the low 20 bits on top, in order, and the high 12 bits below them |
| Words.Rotation14 | 3rdparty/crypto/md5.c:197 | rotating left by 14 puts the low 18 bits on top, in order, and the high 14 bits below them |
| Words.Rotation15 | 3rdparty/crypto/md5.c:197 | rotating left by 15 puts the low 17 bits on top, in order, and the high 15 bits below them |
| Words.Rotation16 | 3rdparty/crypto/md5.c:197 | rotating left by 16 puts the low 16 bits on top, in order, and the high 16 bits below them |
| Words.Rotation17 | 3rdparty/crypto/md5.c:197 | rotating left by 17 puts the low 15 bits on top, in order, and the high 17 bits below them |
| Words.Rotation20 | 3rdparty/crypto/md5.c:197 | rotating left by 20 puts the low 12 bits on top, in order, and the high 20 bits below them |
| Words.Rotation21 | 3rdparty/crypto/md5.c:197 | rotating left by 21 puts the low 11 bits on top, in order, and the high 21 bits below them |
| Words.Rotation22 | 3rdparty/crypto/md5.c:197 | rotating left by 22 puts the low 10 bits on top, in order, and the high 22 bits below them |
| Words.Rotation23 | 3rdparty/crypto/md5.c:197 | rotating left by 23 puts the low 9 bits on top, in order, and the high 23 bits below them |
| Words.Rotation30 | 3rdparty/crypto/sha1.cpp:587-590 | rotating left by 30 puts the low 2 bits on top, in order, and the high 30 bits below them |
| Blocks.FoldComplete | 3rdparty/crypto/md5.c:339-353 | bytes that complete the pending tail add exactly one compressed block and leave no tail |
| Blocks.FoldLengthen | 3rdparty/crypto/md5.c:343-357 | bytes that complete no block change nothing but the tail |
| Md5.AuxiliaryF | 3rdparty/crypto/md5.c:202 | F by its truth table |
| Md5.AuxiliaryG | 3rdparty/crypto/md5.c:228 | G by its truth table |
| Md5.AuxiliaryH | 3rdparty/crypto/md5.c:254 | H by its truth table |
| Md5.AuxiliaryI | 3rdparty/crypto/md5.c:280 | I by its truth table |
| Md5.BlockWordBytes | 3rdparty/crypto/md5.c:191-192 | the bytes of a word of the block, low-order first, are the four bytes at its place |
| Md5.OpUndone | 3rdparty/crypto/md5.c:203-205 | taking the last addend off and turning the bits on gives back the sum of the other four, for the rotation of every step |
| Md5.Rows1 | 3rdparty/crypto/md5.c:202-223 | message index, rotation and constant of the sixteen steps of round 1 are those of the RFC's schedule |
| Md5.Rows2 | 3rdparty/crypto/md5.c:228-249 | the same for round 2, where the index is 5i+1 mod 16 |
| Md5.Rows3 | 3rdparty/crypto/md5.c:254-275 | the same for round 3, where the index is 3i+5 mod 16 |
| Md5.Rows4 | 3rdparty/crypto/md5.c:280-301 | the same for round 4, where the index is 7i mod 16 |
| Md5.Round1 | 3rdparty/crypto/md5.c:202-223 | sixteen steps with renamed registers are steps 1 to 16 of the rotating loop |
| Md5.Round2 | 3rdparty/crypto/md5.c:228-249 | the same for steps 17 to 32 |
| Md5.Round3 | 3rdparty/crypto/md5.c:254-275 | the same for steps 33 to 48 |
| Md5.Round4 | 3rdparty/crypto/md5.c:280-301 | the same for steps 49 to 64 |
| Md5.Process | 3rdparty/crypto/md5.c:132-310 | the unrolled block function is the block function of section 3.4 of RFC 1321, for every state and block |
| Md5.CounterCarry | 3rdparty/crypto/md5.c:334-337 | the carry logic keeps the two words at 8 times the byte count mod 2^64, for every length and wrap-around |
| Md5.OffsetFromCounter | 3rdparty/crypto/md5.c:327 | the offset taken from the low word is the length mod 64, even after that word wrapped |
| Md5.PaddingLength | 3rdparty/crypto/md5.c:376 | the number of padding bytes computed from the counter ends the padding on a block boundary |
| Md5.SaveLength | 3rdparty/crypto/md5.c:372-374 | the eight length bytes are the low 64 bits of the bit length, low-order first |
| Md5.StoreDigest | 3rdparty/crypto/md5.c:379-380 | the digest bytes are section 3.5's output of the registers |
| Md5.Md5State.Init | 3rdparty/crypto/md5.c:313-320 | the initial state has absorbed the empty message |
| Md5.Md5State.AddLength | 3rdparty/crypto/md5.c:334-337 | the counters afterwards count the longer message |
| Md5.Md5State.ProcessBlocks | 3rdparty/crypto/md5.c:351-353 | all whole blocks are absorbed and fewer than 64 bytes are left |
| Md5.Md5State.FillPartial | 3rdparty/crypto/md5.c:339-349 | a partial block is filled up and processed, or only lengthened |
| Md5.Md5State.Append | 3rdparty/crypto/md5.c:323-358 | the state has absorbed the old message followed by the data, in every branch |
| Md5.Md5State.Finish | 3rdparty/crypto/md5.c:361-381 | the result is the RFC 1321 digest of everything appended |
| Md5.HashPieces | 3rdparty/crypto/md5.c:322-381 | for every sequence of appends then a finish, the digest is that of the concatenation |
| Sha1.ChRows | 3rdparty/crypto/sha1.cpp:446-456 | the function of steps 0 to 19 by its truth table |
| Sha1.ParityRows | 3rdparty/crypto/sha1.cpp:458-467 | the function of steps 20 to 39 and 60 to 79 by its truth table |
| Sha1.MajRows | 3rdparty/crypto/sha1.cpp:469-479 | the function of steps 40 to 59 by its truth table |
| Sha1.Roots | 3rdparty/crypto/sha1.cpp:413-418 | the four constants are the square roots of 2, 3, 5 and 10 in units of 2^-30 |
| Sha1.BlockWordBytes | 3rdparty/crypto/sha1.cpp:427-433 | the bytes of a word of the block, high-order first, are the four bytes at its place |
| Sha1.SumUndone | 3rdparty/crypto/sha1.cpp:446-490 | taking the four addends off a step and turning the bits on gives back register A |
| Sha1.ExpandUndone | 3rdparty/crypto/sha1.cpp:435-438 | a word of the expansion gives back each word it is made of |
| Sha1.WordSequence | 3rdparty/crypto/sha1.cpp:424-438 | the array holds W(0) to W(79) of the recursive definition |
| Sha1.ProcessMessageBlock | 3rdparty/crypto/sha1.cpp:411-498 | the four rotating-register loops are the block function of section 7 of FIPS PUB 180-1 |
| Sha1.PadSplit | 3rdparty/crypto/sha1.cpp:528-551 | either padding branch writes exactly the padding bits of section 4 |
| Sha1.Sha1.constructor | 3rdparty/crypto/sha1.cpp:59-62 | a new object has absorbed nothing, is not computed and not corrupted |
| Sha1.Sha1.Reset | 3rdparty/crypto/sha1.cpp:100-114 | the same after a reset |
| Sha1.Sha1.CountByte | 3rdparty/crypto/sha1.cpp:193-203 | the length words count eight more bits with carry; the overflow flag is set exactly at 2^64 bits |
| Sha1.Sha1.InputByte | 3rdparty/crypto/sha1.cpp:189-211 | one byte more is absorbed, with a block compressed when one is full |
| Sha1.Sha1.Input | 3rdparty/crypto/sha1.cpp:175-212 | corrupted for good exactly after a result or past 2^64 bits; otherwise the message grows by the data |
| Sha1.Sha1.StoreLength | 3rdparty/crypto/sha1.cpp:556-563 | the last eight bytes of the block are the bit length, high-order first |
| Sha1.Sha1.PadTo56 | 3rdparty/crypto/sha1.cpp:528-551 | both branches leave exactly the padding of section 4, 56 bytes into a block |
| Sha1.Sha1.PadMessage | 3rdparty/crypto/sha1.cpp:521-566 | the registers are then the FIPS digest of the message |
| Sha1.Sha1.Result | 3rdparty/crypto/sha1.cpp:134-155 | fails exactly when corrupted; otherwise the same digest of everything input, on every call |
| Sha1.HashPieces | 3rdparty/crypto/sha1.cpp:134-212 | for every division into inputs, failure exactly past 2^64 bits, else the digest of the concatenation |
| Base64.Alphabet | 3rdparty/crypto/base64.cpp:31-34 | the 64 letters are those of section 4 of RFC 4648, in order |
| Base64.TestVectors | 3rdparty/crypto/base64.cpp:41-82 | the test vectors of section 10 of RFC 4648 |
| Base64.EncodeBits | 3rdparty/crypto/base64.cpp:51-54 | the shifts and masks of the encoder cut three bytes into four sextets |
| Base64.DecodeBits | 3rdparty/crypto/base64.cpp:98-100 | the shifts of the decoder join four sextets to three bytes |
| Base64.Base64Encode | 3rdparty/crypto/base64.cpp:41-82 | the loops compute the recursive encoding, partial last group included |
| Base64.Base64Decode | 3rdparty/crypto/base64.cpp:84-123 | the loops compute the recursive decoding of the longest prefix of letters |
| Base64.EncodedLength | 3rdparty/crypto/base64.cpp:41-82 | an encoding has 4 times ceil(n/3) characters |
| Base64.DecodeEncode | 3rdparty/crypto/base64.cpp:41-123 | decoding an encoding gives back every byte string |
| Base64.EncodeIsCanonical | 3rdparty/crypto/base64.cpp:41-82 | every encoding is in the canonical form of RFC 4648 |
| Base64.EncodeDecode | 3rdparty/crypto/base64.cpp:41-123 | encoding a decoded string gives it back if and only if it is canonical |
| Buffers.GrowthBounds | src/net/BaseBuffer.cc:103 | a new size holds what is needed, stays under twice that, and grows by at least half of what is relocated |
| Buffers.BaseBuffer.DropAllBytes | src/net/BaseBuffer.cc:66-69 | nothing is readable afterwards |
| Buffers.BaseBuffer.DropBytes | src/net/BaseBuffer.cc:58-64 | a prefix goes, or everything |
| Buffers.BaseBuffer.DropBytesUntil | src/net/BaseBuffer.cc:71-75 | exactly the bytes before the position go |
| Buffers.BaseBuffer.Release | src/net/BaseBuffer.cc:77-81 | empty, with no storage |
| Buffers.BaseBuffer.MoveToFront | src/net/BaseBuffer.cc:94-98 | the overlapping move keeps the contents |
| Buffers.BaseBuffer.Reallocate | src/net/BaseBuffer.cc:101-106 | reallocation keeps the contents, makes room, and keeps the bounds on capacity and on bytes relocated |
| Buffers.BaseBuffer.EnsureWritableSpace | src/net/BaseBuffer.cc:83-107 | there is room for the bytes asked for and the contents are unchanged |
| Buffers.BaseBuffer.Append | src/net/BaseBuffer.cc:109-125 | the contents grow by the data |
| Buffers.BaseBuffer.ReadBytesFromFd | src/net/BaseBuffer.cc:135-161 | a two-segment read appends exactly the n bytes read; nothing on error |
| Buffers.BaseBuffer.WriteBytesToFd | src/net/BaseBuffer.cc:163-169 | exactly the n bytes the kernel accepted go |
| Buffers.Apply | src/net/BaseBuffer.cc:58-169 | one operation of any kind changes the contents as it would a plain sequence; a read is cut only to what its two segments hold |
| Buffers.Replay | src/net/BaseBuffer.cc:58-169 | over every run and at every point of it: the queue equals a plain sequence under what was done, capacity is at most the larger of the initial size and twice the peak since the last release, and bytes relocated are at most twice the growth plus the number of reallocations |
| AsyncLog.FixedBuffer.Append | src/logger/AsyncFileAppender.cc:15-20 | a message is appended whole if it fits and dropped otherwise |
| AsyncLog.FixedBuffer.Reset | src/logger/AsyncFileAppender.cc:46-48 | the buffer is empty |
| AsyncLog.BufferLife | src/logger/AsyncFileAppender.cc:15-48 | over every sequence of appends and resets the array holds the value the appender's buffers have |
| AsyncLog.AsyncFileAppender.constructor | src/logger/AsyncFileAppender.cc:50-57 | four distinct empty buffers, empty log and file |
| AsyncLog.AsyncFileAppender.SwitchToNext | src/logger/AsyncFileAppender.cc:67-74 | the full buffer is queued, an owned empty one takes its place |
| AsyncLog.AsyncFileAppender.Append | src/logger/AsyncFileAppender.cc:59-78 | the log grows by the message unless it is longer than a buffer; conservation and ownership are kept |
| AsyncLog.AsyncFileAppender.Enter | src/logger/AsyncFileAppender.cc:88-93 | past the loop test the spares are both owned, whatever appenders and Stop do meanwhile |
| AsyncLog.AsyncFileAppender.Swap | src/logger/AsyncFileAppender.cc:89-104 | the flusher takes all full buffers and the current one, in order; both needed pointers are non-null |
| AsyncLog.AsyncFileAppender.WriteOne | src/logger/AsyncFileAppender.cc:107-109 | the file grows by the next buffer; conservation is kept |
| AsyncLog.AsyncFileAppender.Reuse | src/logger/AsyncFileAppender.cc:111-127 | indices 0 and 1 are in range where they are read; both spares are owned and empty at the loop head |
| AsyncLog.AsyncFileAppender.FlushRound | src/logger/AsyncFileAppender.cc:89-127 | a turn of the flush loop, undisturbed, leaves the whole log in the file |
| AsyncLog.AsyncFileAppender.FlushStep | src/logger/AsyncFileAppender.cc:80-129 | from each place of the flusher, what its next step does to the current, full and taken buffers, the file and its place |
| AsyncLog.AsyncFileAppender.FinishTurn | src/logger/AsyncFileAppender.cc:106-128 | from anywhere in a turn the flusher reaches its loop test |
| AsyncLog.AsyncFileAppender.Observe | src/logger/AsyncFileAppender.cc:59-129 | file followed by what is in buffers is the log, in every reachable state |
| AsyncLog.Settle | src/logger/AsyncFileAppender.cc:59-129 | the appender itself settles in that many steps |
| AsyncLog.Act | src/logger/AsyncFileAppender.cc:59-147 | one action of any thread changes the appender as it changes a pipe of byte strings |
| AsyncLog.ReachedKeeps | src/logger/AsyncFileAppender.cc:59-129 | over every schedule the pipe holds exactly what was logged, in order, in no more buffers than there were actions |
| AsyncLog.Settles | src/logger/AsyncFileAppender.cc:80-129 | after a schedule of k actions without a stop, k + 4 further steps of the flusher put everything logged in the file |
| AsyncLog.Interleave | src/logger/AsyncFileAppender.cc:59-129 | over every schedule of appenders, flusher steps and stops, the file is exactly the pipe's, and file and buffers make up all accepted messages in lock order |
| TcpConn.TcpConn.Send | src/net/TcpConn.cc:73-81 | data is queued exactly while connected, with write interest on |
| TcpConn.TcpConn.OnChannelWritable | src/net/TcpConn.cc:216-262 | what the kernel accepts is the head of the queue; interest goes only when nothing is left |
| TcpConn.TcpConn.Shutdown | src/net/TcpConn.cc:95-112 | the connected state is left and the two streams stand still; when shutdown succeeds both buffers keep what they hold |
| TcpConn.TcpConn.OnChannelClose | src/net/TcpConn.cc:264-279 | disconnected, both buffers released |
| TcpConn.TcpConn.OnChannelReadable | src/net/TcpConn.cc:170-214 | bytes read are received, end of file or an error disconnects |
| TcpConn.Handle | src/net/TcpConn.cc:73-279 | what each event queues, sends, receives and leaves waiting, and the write interest after it; no event brings the connected state back, or queues or sends anything once it is left |
| TcpConn.NothingLost | src/net/TcpConn.cc:73-262 | what the kernel accepted is a prefix of what Send accepted; while connected the bytes delivered and the bytes waiting make it up, and bytes never wait without write interest |
| TcpConn.Live | src/net/TcpConn.cc:73-279 | over every life: connected exactly until a leaving event; the bytes sent are exactly what each write event took from the front of what waited; while connected, what waits and the write interest are those the events leave |
| Websocket.MaskInvolution | src/proto/ws/WebsocketCodec.cc:169-174 | masking twice with the same key is the identity (section 5.3 of RFC 6455) |
| Websocket.MaskBytes | src/proto/ws/WebsocketCodec.cc:169-174 | each byte with exactly the bits of the key byte at its index modulo 4 turned over |
| Websocket.RefusedBits | src/proto/ws/WebsocketCodec.cc:115-123 | refused exactly when the top bit of the second byte is clear or the low half of the first is 8 |
| Websocket.WebsocketCodec.DecodeFrameHead | src/proto/ws/WebsocketCodec.cc:100-154 | unmasked and close frames are refused and everything dropped; otherwise exactly the head is consumed and the frame in flight is unchanged |
| Websocket.WebsocketCodec.UnmaskInPlace | src/proto/ws/WebsocketCodec.cc:167-174 | the bytes taken are XORed with the key at their index in the whole payload, the rest is untouched |
| Websocket.WebsocketCodec.TakeOver | src/proto/ws/WebsocketCodec.cc:164-178 | bytes taken plus bytes remaining stay at the declared length |
| Websocket.WebsocketCodec.DecodePayload | src/proto/ws/WebsocketCodec.cc:157-188 | complete exactly when all declared bytes are there; then only those are consumed |
| Websocket.WebsocketCodec.Decode | src/proto/ws/WebsocketCodec.cc:20-41 | one call delivers the frame unmasked and leaves what follows it, or takes the bytes of an unfinished frame, or refuses |
| Websocket.HeadOfPrefix | src/proto/ws/WebsocketCodec.cc:100-154 | a complete head reads the same whatever follows it |
| Websocket.DeliveryOfPrefix | src/proto/ws/WebsocketCodec.cc:157-188 | more bytes do not change what a complete frame delivers |
| Websocket.ReceiveFrame | src/proto/ws/WebsocketCodec.cc:20-188 | for every cut of a stream after its head, delivery is that of the whole stream and exactly the frame's bytes are consumed |
| Websocket.MoreBytes | src/proto/ws/WebsocketCodec.cc:100-188 | bytes that arrive later change none of the frames that are there |
| Websocket.CallAt | src/proto/ws/WebsocketCodec.cc:20-41 | a call of Decode hands out the next frame of the stream, or stays within it, or refuses |
| Websocket.ReceiveStream | src/proto/ws/WebsocketCodec.cc:20-188 | over every arrival of a stream and every placing of calls, requests handed out are those of its frames in order, one for each completing call, and between frames exactly the rest is unread |
| Websocket.ClientStream | src/proto/ws/WebsocketCodec.cc:100-188 | the frames of a client's stream are its messages, whatever follows |
| Websocket.HeadBytes | src/proto/ws/WebsocketCodec.cc:125-148 | opcode, length, key and payload position of a head, byte by byte, in all three forms |
| Websocket.DeliveredBytes | src/proto/ws/WebsocketCodec.cc:100-188 | the request of any whole frame as a function of the single bytes on the wire, and what is left |
| Websocket.ClientFrameBytes | src/proto/ws/WebsocketCodec.cc:125-174 | the single bytes a client puts on the wire, in all three forms |
| Websocket.ClientHead | src/proto/ws/WebsocketCodec.cc:125-153 | all three length forms of a client's head read back |
| Websocket.ClientFrameDelivered | src/proto/ws/WebsocketCodec.cc:100-188 | every frame a client writes delivers its payload |
| WsAccept.BytesAre | src/proto/ws/WebsocketCodec.cc:90 | the hash is fed the low byte of each character |
| WsAccept.AcceptDecodes | src/proto/ws/WebsocketCodec.cc:85-98 | the accept string has 28 characters and decodes to the 20 digest bytes |
| WsAccept.HashedWhole | src/proto/ws/WebsocketCodec.cc:86-90 | below 2^32 characters the key and the magic string are hashed whole |
| WsAccept.ToNetworkOrder | src/proto/ws/WebsocketCodec.cc:92-96 | the swap loop reverses the bytes of each word |
| WsAccept.HashedIs | src/proto/ws/WebsocketCodec.cc:16 | what is hashed is the key and the magic string, up to the 32-bit length |
| WsAccept.HashKey | src/proto/ws/WebsocketCodec.cc:86-91 | the five words are the FIPS digest; the hash cannot fail here |
| WsAccept.GetSecWebSocketAccept | src/proto/ws/WebsocketCodec.cc:85-98 | the result is the Base64 of the big-endian digest words, as section 4.2.2 of RFC 6455 has it |
| Http.MethodNames | src/proto/http/HttpReqDecoder.cc:13-22 | the six method names and no others |
| Http.VersionNames | src/proto/http/HttpReqDecoder.cc:24-26 | the two version names and no others |
| Http.ReadLineInPrefix | src/proto/http/HttpReqDecoder.cc:62-103 | a complete request line reads the same whatever follows it |
| Http.JunkInPrefix | src/proto/http/HttpReqDecoder.cc:66-81 | junk stays junk whatever follows it, except the seven letters of OPTIONS |
| Http.ReadFieldInPrefix | src/proto/http/HttpReqDecoder.cc:105-131 | a complete header line reads the same whatever follows it |
| Http.RunThenFeed | src/proto/http/HttpReqDecoder.cc:30-137 | decoding what has arrived and then the rest is decoding the whole, unless a call dropped or over-read |
| Http.DroppedPrefix | src/proto/http/HttpReqDecoder.cc:66-81 | of a text that is not junk a prefix is dropped if and only if it is OPTIONS |
| Http.DeliveredBody | src/proto/http/HttpReqDecoder.cc:139-147 | the body handed out is the front of what had arrived: all of it, or limit bytes |
| Http.TruncationFlag | src/proto/http/HttpReqDecoder.cc:139-147 | the truncation flag is right if and only if the body is within the limit |
| Http.HttpReqDecoder.ParseRequestLine | src/proto/http/HttpReqDecoder.cc:62-103 | each way a request line can be incomplete, junk, of a bad version or complete, with what is consumed |
| Http.HttpReqDecoder.ParseVersion | src/proto/http/HttpReqDecoder.cc:91-102 | the version part: waiting, throwing with nothing consumed, or the whole line consumed |
| Http.HttpReqDecoder.TakeField | src/proto/http/HttpReqDecoder.cc:125-130 | one line leaves the buffer and enters the headers unless its name is there |
| Http.HttpReqDecoder.ParseHeaders | src/proto/http/HttpReqDecoder.cc:105-137 | the loop takes every complete line and stops at the blank line or the first incomplete one; it terminates on unread bytes |
| Http.HttpReqDecoder.ParseBody | src/proto/http/HttpReqDecoder.cc:139-147 | the body is what is there, cut at the limit; the rest is dropped |
| Http.HttpReqDecoder.Decode | src/proto/http/HttpReqDecoder.cc:30-56 | one call decodes as far as the bytes go and leaves the decoder standing there; it terminates on the rank of the state |
| Http.ReceiveRequest | src/proto/http/HttpReqDecoder.cc:30-147 | for every cut without over-read and without a bare OPTIONS, method, URI, version and headers are those one call finds; the body is what had arrived |
| Http.FieldReadsBack | src/proto/http/HttpReqDecoder.cc:116-128 | a well-formed header line reads back, with or without the space after the colon |
| Http.FieldsReadBack | src/proto/http/HttpReqDecoder.cc:105-137 | header lines, each with or without the space, read back as the map that inserting them in order gives |
| Http.RequestReadsBack | src/proto/http/HttpReqDecoder.cc:30-147 | the wire text of every well-formed request decodes to its method, URI, version, headers and body |
| Http.CaseKeys | src/proto/http/HttpReq.h:17-21 | names share an entry exactly when they have the same letters, in any case, up to a zero |
| Http.FirstFieldStays | src/proto/http/HttpReqDecoder.cc:129 | the entry for a name is the first field of that name in any case, and there is none without such a field |
| Http.EntriesAreFields | src/proto/http/HttpReqDecoder.cc:129 | every entry is a field, and no two entries have the same name in different cases |
| Http.FirstNameWins | src/proto/http/HttpReq.cc:31-37 | looking a name up finds the value of the first field of that name in any letter case |
| Http.PrefixDropped | src/proto/http/HttpReqDecoder.cc:66-81 | of all prefixes of a well-formed request only OPTIONS without its space is dropped |
| Http.PrefixOverReads | src/proto/http/HttpReqDecoder.cc:110-114 | a prefix of a well-formed request over-reads if and only if it ends where a header line starts, or after a lone CR there |
| Http.CutWellPositions | src/proto/http/HttpReqDecoder.cc:66-137 | whether a well-formed request may be cut into given pieces is a matter of those positions alone |
| Http.OnePiece | src/proto/http/HttpReqDecoder.cc:30-147 | every well-formed request may come in one piece |
| Http.ReceiveWellFormed | src/proto/http/HttpReqDecoder.cc:30-147 | cut anywhere else, a well-formed request is handed out with its fields by the call that finds its head complete, with what had arrived of its body, cut at the limit |
| Registry.AgreeAfterPush | src/net/ThreadPool.cc:84-85 | pushing to queue and map together keeps them equal |
| Registry.AgreeAfterPop | src/net/ThreadPool.cc:27-29 | popping one and erasing its id keeps them equal |
| ThreadPool.RankOrders | src/net/ThreadPool.h:20 | the comparison orders LOW, NORMAL, HIGH and EMERGENCY |
| ThreadPool.EveryTaskInOnePlace | src/net/ThreadPool.cc:18-104 | in every run each accepted task is in exactly one of pending, running, finished or dropped, on one worker at most |
| ThreadPool.TakenOnce | src/net/ThreadPool.cc:27-41 | no task is started twice, or both started and dropped |
| ThreadPool.CanceledNeverStarts | src/net/ThreadPool.cc:31-35 | once CancelTask returned true that task never starts |
| ThreadPool.HigherPriorityFirst | src/net/ThreadPool.cc:27-28 | when a task is taken, every task accepted before with a higher priority was taken before |
| ThreadPool.QueueBound | src/net/ThreadPool.cc:75-77 | the queue never outgrows its limit |
| ThreadPool.TopIsMaximal | src/net/ThreadPool.h:61-65 | a maximal queue entry is a maximal waiting task |
| ThreadPool.ThreadPool.SubmitTask | src/net/ThreadPool.cc:72-89 | refused exactly when full, else a new id enters queue and map |
| ThreadPool.ThreadPool.CancelTask | src/net/ThreadPool.cc:91-104 | true exactly when the task waits; it is then marked |
| ThreadPool.ThreadPool.TakeTask | src/net/ThreadPool.cc:20-38 | one critical section of a worker starts or drops a maximal task |
| ThreadPool.ThreadPool.FinishTask | src/net/ThreadPool.cc:39-40 | the worker's task is finished |
| ThreadPool.ThreadPool.GetPendingTasks | src/net/ThreadPool.cc:63-66 | the number of waiting tasks |
| ThreadPool.Live | src/net/ThreadPool.cc:18-104 | whatever submitters, cancellers, workers and other pools do, each action has the outcome its state calls for, and the trace of what happens is legal |
| TimerQueue.EveryTimer | src/net/TimerQueue.cc:46-175 | in every run a timer is in one place, and runs plus repetitions left match what was asked for |
| TimerQueue.Recorded | src/net/TimerQueue.cc:94-130 | run counts and expiries are those the trace shows |
| TimerQueue.AtMostAsked | src/net/TimerQueue.cc:118-129 | a timer runs at most once more than the repetitions asked for |
| TimerQueue.CanceledNeverRuns | src/net/TimerQueue.cc:94-102 | once CancelTimer returned true the timer never runs again |
| TimerQueue.RunsAfterExpiry | src/net/TimerQueue.cc:53-65 | every run has its own clock reading before it, at or past the expiry the timer then had |
| TimerQueue.HalfIsLeft | src/net/TimerQueue.cc:54-65 | when a timeout pops, as many timers are left as it popped, or one fewer |
| TimerQueue.HandledMeans | src/net/TimerQueue.cc:94-129 | the task runs unless the timer was canceled or its stop condition holds; it ends exactly with the last repetition |
| TimerQueue.PopsAllExpired | src/net/TimerQueue.cc:54-65 | a timeout pops all expired timers if and only if none has expired or at most one waits |
| TimerQueue.TimerQueue.AddTimer | src/net/TimerQueue.cc:132-154 | not added when already expired; else added to queue and map under its old id or a new one |
| TimerQueue.TimerQueue.AddNewTimer | src/net/TimerQueue.cc:156-164 | a new timer is rejected or added |
| TimerQueue.TimerQueue.CancelTimer | src/net/TimerQueue.cc:166-175 | true exactly when the timer waits; it is then marked |
| TimerQueue.TimerQueue.PopTop | src/net/TimerQueue.cc:55-64 | one turn of the loop pops a latest-expiring timer |
| TimerQueue.TimerQueue.PopExpiredTimers | src/net/TimerQueue.cc:46-68 | pops nothing while any timer is unexpired, else half of the timers, rounded up |
| TimerQueue.TimerQueue.HandleTimer | src/net/TimerQueue.cc:94-129 | canceled or stopped timers are dropped, others run once; the last run deletes |
| TimerQueue.TimerQueue.Rearm | src/net/TimerQueue.cc:119-125 | one repetition less and a new expiry; back in the queue, or lost when it has already expired |
| TimerQueue.TimerQueue.GetTimerNums | src/net/TimerQueue.cc:177-180 | the number of waiting timers |
| TimerQueue.Live | src/net/TimerQueue.cc:46-175 | whatever adds, cancels and times out and whatever the clock reads, each action has the outcome its state calls for, and the trace of what happens is legal |

## Left out

- Md5.Md5State.Append: at most 2^64-64 bytes in one call, because above that `offset + nbytes` can wrap; no object in memory is that long.
- Md5.HashPieces: the same bound on each piece.
- Websocket.WebsocketCodec.DecodeFrameHead: an incomplete head is a precondition, because the code reads past the readable bytes there.
- Websocket.WebsocketCodec.Decode: the same at a frame head; the handshake state is not part of the codec modelled. `Websocket.ReceiveStream` has no such condition: its caller waits for a complete head.
- Websocket.ReceiveFrame: the same for its first piece.
- Http.HttpReqDecoder.ParseHeaders: a header line that starts with no readable byte or a lone CR is excluded, because the code reads past the readable bytes there.
- Http.HttpReqDecoder.Decode: the same for the calls it makes; `Http.PrefixOverReads` gives the positions.
- Memory: `size_t` and `int` lengths are numbers; buffer sizes do not wrap, and the growth factor 1.5 is `size + size / 2`, without the rounding of doubles above 2^53. Base64 takes any length; the code counts in 32 bits.
- Iterators, pointers and `string_view`s into a buffer are positions; their invalidation by a reallocation is not modelled.
- Sockets, epoll, timerfd, signals, files and OpenSSL: what they return is a parameter or a ghost sequence; the encrypted read and write paths are not modelled.
- Buffers of the log are values with an identity in `AsyncFileAppender`; that the array of a `FixedBuffer` holds that value over every life is `AsyncLog.BufferLife`.
- That everything is on disk after `Stop`: the loop of the flush thread can leave before a last swap, so only the prefix and conservation claims are made.
- `WebsocketCodec::HandShake` beyond the accept key, the close frame and the shutdown it sends (they are the outcome `Refused`), and `EncodeFrameHead`, which returns its head through a C string.
- The host and the request URI the codec copies into each websocket request: plain copies.
- TcpConn.TcpConn.OnChannelWritable: the disconnect callback on EPIPE is a later event of the same connection, not part of the call; callbacks that close or send are events too.
- Exactly-once `OnDisconnected`, lifetimes of shared pointers, `TcpConnSet`, contexts and codecs in `std::any`.
- HTTP response building, status tables, dates, configuration and logging macros: they would only add easy members.
- Http.ReceiveRequest: cuts at which a call over-reads or meets a bare OPTIONS are excluded; the body is what arrived together with the end of the headers, because the code takes no more; a body in later pieces is decoded as a new request by the code, and nothing is claimed about it.
- The `ThreadPool` shutdown drain runs without the lock; runs are modelled up to `Stop`.
- Order of handling within one batch of timers is modelled; the wake-up time given to the timer descriptor is not.
- The inner heap of `std::priority_queue`: it is a collection whose top is any entry of maximal priority (for timers, latest expiry).
- Two threads on one `BaseBuffer`: each connection is handled by one thread.
