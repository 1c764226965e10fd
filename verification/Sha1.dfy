/** The SHA1 class of sha1.cpp, and FIPS PUB 180-1 as its specification. */
module Sha1 {
  import opened Words
  import opened Blocks

  // ------------------------------------------------------------ FIPS PUB 180-1

  datatype Regs = Regs(a: bv32, b: bv32, c: bv32, d: bv32, e: bv32)

  const INIT := Regs(0x67452301, 0xefcdab89, 0x98badcfe, 0x10325476, 0xc3d2e1f0)

  /** Word k of a block, high-order byte first. */
  function BlockWord(block: seq<bv8>, k: nat): bv32
    requires |block| == 64 && k < 16
  {
    ((block[4 * k] as bv32) << 24) | ((block[4 * k + 1] as bv32) << 16) |
    ((block[4 * k + 2] as bv32) << 8) | (block[4 * k + 3] as bv32)
  }

  /** The word W(t) of section 7, steps a and b. */
  function W(block: seq<bv8>, t: nat): bv32
    requires |block| == 64
  {
    if t < 16 then BlockWord(block, t)
    else Expand(W(block, t - 3), W(block, t - 8), W(block, t - 14), W(block, t - 16))
  }

  function Expand(w3: bv32, w8: bv32, w14: bv32, w16: bv32): bv32
  {
    RotateLeft(w3 ^ w8 ^ w14 ^ w16, 1)
  }

  /** The functions of section 5. */
  function F(t: nat, b: bv32, c: bv32, d: bv32): bv32
  {
    if t < 20 then Ch(b, c, d) else if t < 40 then Parity(b, c, d)
    else if t < 60 then Maj(b, c, d) else Parity(b, c, d)
  }

  function Ch(b: bv32, c: bv32, d: bv32): bv32 { (b & c) | (!b & d) }

  function Parity(b: bv32, c: bv32, d: bv32): bv32 { b ^ c ^ d }

  function Maj(b: bv32, c: bv32, d: bv32): bv32 { (b & c) | (b & d) | (c & d) }

  /** The constants of section 6. */
  function K(t: nat): bv32
  {
    if t < 20 then 0x5a827999 else if t < 40 then 0x6ed9eba1 else if t < 60 then 0x8f1bbcdc else 0xca62c1d6
  }

  function Sum(a: bv32, f: bv32, e: bv32, w: bv32, k: bv32): bv32
  {
    Plus(Plus(Plus(Plus(RotateLeft(a, 5), f), e), w), k)
  }

  /** Step d of section 7 for one t. */
  function Step(r: Regs, block: seq<bv8>, t: nat): Regs
    requires |block| == 64
  {
    Regs(Sum(r.a, F(t, r.b, r.c, r.d), r.e, W(block, t), K(t)), r.a, RotateLeft(r.b, 30), r.c, r.d)
  }

  function Steps(r: Regs, block: seq<bv8>, n: nat): Regs
    requires |block| == 64
  {
    if n == 0 then r else Step(Steps(r, block, n - 1), block, n - 1)
  }

  function Add(r: Regs, s: Regs): Regs
  {
    Regs(Plus(r.a, s.a), Plus(r.b, s.b), Plus(r.c, s.c), Plus(r.d, s.d), Plus(r.e, s.e))
  }

  /** The block function of section 7. */
  function Compress(h: Regs, block: seq<bv8>): Regs
  {
    if |block| == 64 then Add(h, Steps(h, block, 80)) else h
  }

  /** Section 4: messages are shorter than 2^64 bits. */
  function Pad(m: seq<bv8>): (r: seq<bv8>)
    requires |m| < 0x2000_0000_0000_0000
    ensures |r| % 64 == 0
  {
    m + PadBits(|m|) + BigEndian64(8 * |m|)
  }

  function Digest(m: seq<bv8>): Regs
    requires |m| < 0x2000_0000_0000_0000
  {
    Fold(Compress, INIT, Pad(m))
  }

  function DigestWords(r: Regs): (w: seq<bv32>)
    ensures |w| == 5
  {
    [r.a, r.b, r.c, r.d, r.e]
  }

  // ---------------------------------------------- what the pieces mean, bit by bit

  /** The functions of section 5 by their truth tables: the rows in which a bit of the result is set. */
  lemma ChRows(b: bv32, c: bv32, d: bv32)
    ensures Ch(b, c, d) == (b & c & d) | (b & c & !d) | (!b & c & d) | (!b & !c & d)
  {
  }

  lemma ParityRows(b: bv32, c: bv32, d: bv32)
    ensures Parity(b, c, d) == (b & c & d) | (b & !c & !d) | (!b & c & !d) | (!b & !c & d)
  {
  }

  lemma MajRows(b: bv32, c: bv32, d: bv32)
    ensures Maj(b, c, d) == (b & c & d) | (b & c & !d) | (b & !c & d) | (!b & c & d)
  {
  }

  /** The constants of section 6 are the square roots of 2, 3, 5 and 10, in units of 2^-30. */
  lemma Roots(t: nat)
    ensures var n := if t < 20 then 2 else if t < 40 then 3 else if t < 60 then 5 else 10;
            var k := K(t) as int;
            k * k <= n * 0x1000_0000_0000_0000 < (k + 1) * (k + 1)
  {
  }

  /** The bytes of a word of the block, high-order byte first. */
  lemma BlockWordBytes(block: seq<bv8>, k: nat)
    requires |block| == 64 && k < 16
    ensures RegisterByte(BlockWord(block, k), 3) == block[4 * k]
    ensures RegisterByte(BlockWord(block, k), 2) == block[4 * k + 1]
    ensures RegisterByte(BlockWord(block, k), 1) == block[4 * k + 2]
    ensures RegisterByte(BlockWord(block, k), 0) == block[4 * k + 3]
  {
  }

  /** A step can be undone: take the addends off, turn the bits on to where they were, and a is back. */
  lemma SumUndone(a: bv32, f: bv32, e: bv32, w: bv32, k: bv32)
    ensures RotateLeft(Minus(Minus(Minus(Minus(Sum(a, f, e, w, k), k), w), e), f), 27) == a
  {
    hide RotateLeft, Plus, Minus;
    var r := RotateLeft(a, 5);
    PlusUndone(Plus(Plus(Plus(r, f), e), w), k);
    PlusUndone(Plus(Plus(r, f), e), w);
    PlusUndone(Plus(r, f), e);
    PlusUndone(r, f);
    TurnBack5(a);
  }

  /** Turned on by 31 places and freed of three of the words, a word of the expansion is the fourth. */
  lemma ExpandUndone(w3: bv32, w8: bv32, w14: bv32, w16: bv32)
    ensures RotateLeft(Expand(w3, w8, w14, w16), 31) ^ w16 ^ w14 ^ w8 == w3
  {
    hide RotateLeft;
    TurnBack1(w3 ^ w8 ^ w14 ^ w16);
    FourWords(w3, w8, w14, w16);
  }

  lemma FourWords(w3: bv32, w8: bv32, w14: bv32, w16: bv32)
    ensures (w3 ^ w8 ^ w14 ^ w16) ^ w16 ^ w14 ^ w8 == w3
  {
  }

  // ------------------------------------------------------------- the block method

  /** The word sequence as an array. */
  method WordSequence(block: seq<bv8>) returns (w: array<bv32>)
    requires |block| == 64
    ensures fresh(w) && w.Length == 80
    ensures forall j | 0 <= j < 80 :: w[j] == W(block, j)
  {
    hide Expand, BlockWord;
    w := new bv32[80];
    for t := 0 to 16
      invariant forall j | 0 <= j < t :: w[j] == W(block, j)
    {
      w[t] := BlockWord(block, t);
    }
    for t := 16 to 80
      invariant forall j | 0 <= j < t :: w[j] == W(block, j)
    {
      w[t] := Expand(w[t - 3], w[t - 8], w[t - 14], w[t - 16]);
    }
  }

  /** ProcessMessageBlock: the word sequence, then four loops over shifting registers. */
  method ProcessMessageBlock(h: Regs, block: seq<bv8>) returns (r: Regs)
    requires |block| == 64
    ensures r == Compress(h, block)
  {
    hide RotateLeft, Ch, Parity, Maj, Sum, W, Plus;
    var w := WordSequence(block);
    var a, b, c, d, e := h.a, h.b, h.c, h.d, h.e;
    for t := 0 to 20
      invariant Regs(a, b, c, d, e) == Steps(h, block, t)
    {
      var temp := Sum(a, Ch(b, c, d), e, w[t], 0x5a827999);
      e := d;
      d := c;
      c := RotateLeft(b, 30);
      b := a;
      a := temp;
    }
    for t := 20 to 40
      invariant Regs(a, b, c, d, e) == Steps(h, block, t)
    {
      var temp := Sum(a, Parity(b, c, d), e, w[t], 0x6ed9eba1);
      e := d;
      d := c;
      c := RotateLeft(b, 30);
      b := a;
      a := temp;
    }
    for t := 40 to 60
      invariant Regs(a, b, c, d, e) == Steps(h, block, t)
    {
      var temp := Sum(a, Maj(b, c, d), e, w[t], 0x8f1bbcdc);
      e := d;
      d := c;
      c := RotateLeft(b, 30);
      b := a;
      a := temp;
    }
    for t := 60 to 80
      invariant Regs(a, b, c, d, e) == Steps(h, block, t)
    {
      var temp := Sum(a, Parity(b, c, d), e, w[t], 0xca62c1d6);
      e := d;
      d := c;
      c := RotateLeft(b, 30);
      b := a;
      a := temp;
    }
    r := Regs(Plus(h.a, a), Plus(h.b, b), Plus(h.c, c), Plus(h.d, d), Plus(h.e, e));
  }

  // ------------------------------------------------------------------- the class

  lemma BigEndianBytes(hi: word, lo: word)
    ensures BigEndian64(hi * 0x1_0000_0000 + lo)
            == [CounterByte(hi, 3), CounterByte(hi, 2), CounterByte(hi, 1), CounterByte(hi, 0),
                CounterByte(lo, 3), CounterByte(lo, 2), CounterByte(lo, 1), CounterByte(lo, 0)]
  {
    hide CounterByte;
    var len := hi * 0x1_0000_0000 + lo;
    assert len / 0x1_0000_0000 == hi && len % 0x1_0000_0000 == lo;
  }

  lemma PadSplit(n: nat)
    ensures n % 64 <= 55 ==> PadBits(n) == [0x80] + Zeros(55 - n % 64)
    ensures n % 64 > 55 ==> PadBits(n) == [0x80] + Zeros(63 - n % 64) + Zeros(56)
  {
    assert ZeroCount(n) == if n % 64 <= 55 then 55 - n % 64 else 119 - n % 64;
  }

  class Sha1 {
    var h: Regs
    var lengthLow: word
    var lengthHigh: word
    const messageBlock: array<bv8>
    var messageBlockIndex: nat
    var computed: bool
    var corrupted: bool
    ghost var message: seq<bv8>

    /** The registers, the length and the pending bytes are those of m. */
    ghost predicate Absorbed(m: seq<bv8>)
      reads this, messageBlock
    {
      && messageBlock.Length == 64
      && messageBlockIndex == |Tail(m)|
      && messageBlock[..messageBlockIndex] == Tail(m)
      && h == Fold(Compress, INIT, m)
      && 8 * |m| == lengthHigh * 0x1_0000_0000 + lengthLow
    }

    ghost predicate Valid()
      reads this, messageBlock
    {
      && messageBlock.Length == 64
      && (!corrupted ==> |message| < 0x2000_0000_0000_0000)
      && (!corrupted && !computed ==> Absorbed(message))
      && (!corrupted && computed ==> h == Digest(message))
    }

    constructor ()
      ensures Valid() && fresh(messageBlock)
      ensures message == [] && !computed && !corrupted
    {
      messageBlock := new bv8[64];
      new;
      Reset();
    }

    method Reset()
      requires messageBlock.Length == 64
      modifies this
      ensures Valid() && message == [] && !computed && !corrupted
    {
      lengthLow, lengthHigh, messageBlockIndex := 0, 0, 0;
      h := Regs(0x67452301, 0xefcdab89, 0x98badcfe, 0x10325476, 0xc3d2e1f0);
      computed, corrupted := false, false;
      message := [];
    }

    /** The length update of Input: eight more bits, with the carry and the overflow flag. */
    method CountByte(ghost n: nat)
      requires 8 * n == lengthHigh * 0x1_0000_0000 + lengthLow
      modifies `lengthLow, `lengthHigh, `corrupted
      ensures corrupted == (old(corrupted) || n + 1 == 0x2000_0000_0000_0000)
      ensures n + 1 < 0x2000_0000_0000_0000 ==> 8 * (n + 1) == lengthHigh * 0x1_0000_0000 + lengthLow
    {
      lengthLow := (lengthLow + 8) % 0x1_0000_0000;
      if lengthLow == 0 {
        lengthHigh := (lengthHigh + 1) % 0x1_0000_0000;
        if lengthHigh == 0 {
          corrupted := true;
        }
      }
    }

    /** One turn of the loop of Input: store the byte, count its bits, process a full block. */
    method InputByte(x: bv8, ghost m: seq<bv8>)
      requires Absorbed(m)
      modifies this, messageBlock
      ensures message == old(message) && computed == old(computed)
      ensures corrupted == (old(corrupted) || |m| + 1 == 0x2000_0000_0000_0000)
      ensures |m| + 1 < 0x2000_0000_0000_0000 ==> Absorbed(m + [x])
    {
      hide Fold, Tail, Compress;
      messageBlock[messageBlockIndex] := x;
      messageBlockIndex := messageBlockIndex + 1;
      assert messageBlock[..messageBlockIndex] == Tail(m) + [x];
      CountByte(|m|);
      if messageBlockIndex == 64 {
        FoldComplete(Compress, INIT, m, [x]);
        assert messageBlock[..] == messageBlock[..64];
        h := ProcessMessageBlock(h, messageBlock[..]);
        messageBlockIndex := 0;
      } else {
        FoldLengthen(Compress, INIT, m, [x]);
      }
    }

    /**
     * Input after a result, or past 2^64 bits in total, marks the object corrupted for good;
     * any other input is absorbed.
     */
    method Input(data: seq<bv8>)
      requires Valid() && |data| < 0x1_0000_0000
      modifies this, messageBlock
      ensures Valid() && computed == old(computed)
      ensures corrupted == (old(corrupted) || (data != [] &&
                (old(computed) || |old(message)| + |data| >= 0x2000_0000_0000_0000)))
      ensures !corrupted ==> message == old(message) + data
    {
      hide Fold, Tail, Compress;
      if |data| == 0 {
        return;
      }
      if computed || corrupted {
        corrupted := true;
        return;
      }
      var i := 0;
      assert message + data[..0] == message;
      while i < |data| && !corrupted
        invariant 0 <= i <= |data|
        invariant message == old(message) && computed == old(computed)
        invariant if corrupted then |message| + i == 0x2000_0000_0000_0000
                  else Absorbed(message + data[..i]) && |message| + i < 0x2000_0000_0000_0000
      {
        assert message + data[..i] + [data[i]] == message + data[..i + 1];
        InputByte(data[i], message + data[..i]);
        i := i + 1;
      }
      assert data[..|data|] == data;
      message := message + data;
    }

    method FillZeros(to: nat)
      requires messageBlock.Length == 64 && messageBlockIndex <= to <= 64
      modifies messageBlock, `messageBlockIndex
      ensures messageBlockIndex == to
      ensures messageBlock[..to] == old(messageBlock[..messageBlockIndex]) + Zeros(to - old(messageBlockIndex))
    {
      ghost var from := messageBlockIndex;
      while messageBlockIndex < to
        invariant from <= messageBlockIndex <= to
        invariant messageBlock[..messageBlockIndex]
                  == old(messageBlock[..messageBlockIndex]) + Zeros(messageBlockIndex - from)
      {
        messageBlock[messageBlockIndex] := 0;
        messageBlockIndex := messageBlockIndex + 1;
      }
    }

    /** The length as the last eight bytes of the block. */
    method StoreLength()
      requires messageBlock.Length == 64
      modifies messageBlock
      ensures messageBlock[..56] == old(messageBlock[..56])
      ensures messageBlock[56..] == BigEndian64(lengthHigh * 0x1_0000_0000 + lengthLow)
    {
      hide CounterByte, BigEndian64;
      messageBlock[56] := CounterByte(lengthHigh, 3);
      messageBlock[57] := CounterByte(lengthHigh, 2);
      messageBlock[58] := CounterByte(lengthHigh, 1);
      messageBlock[59] := CounterByte(lengthHigh, 0);
      messageBlock[60] := CounterByte(lengthLow, 3);
      messageBlock[61] := CounterByte(lengthLow, 2);
      messageBlock[62] := CounterByte(lengthLow, 1);
      messageBlock[63] := CounterByte(lengthLow, 0);
      BigEndianBytes(lengthHigh, lengthLow);
    }

    /** The padding when the current block is too full for it: this block is processed, and the next one zeroed. */
    method PadToNext() returns (ghost m: seq<bv8>, ghost d: seq<bv8>)
      requires Absorbed(message) && messageBlockIndex > 55
      modifies messageBlock, `messageBlockIndex, `h
      ensures m + d == message + PadBits(|message|) && |Tail(m)| + |d| == 56
      ensures h == Fold(Compress, INIT, m) && messageBlock[..56] == Tail(m) + d
    {
      hide Fold, Tail, Compress, PadBits, Zeros;
      TailLength(message);
      PadSplit(|message|);
      ghost var t := messageBlockIndex;
      messageBlock[messageBlockIndex] := 0x80;
      messageBlockIndex := messageBlockIndex + 1;
      FillZeros(64);
      ghost var first := [0x80] + Zeros(63 - t);
      assert messageBlock[..] == messageBlock[..64] == Tail(message) + first;
      FoldComplete(Compress, INIT, message, first);
      m, d := message + first, Zeros(56);
      h := ProcessMessageBlock(h, messageBlock[..]);
      messageBlockIndex := 0;
      FillZeros(56);
      assert m + d == message + (first + Zeros(56));
    }

    /**
     * The padding before the length, in the current block or, when that is too full, in the next one.
     * m is what the registers have absorbed, d what the block holds after the tail of m.
     */
    method PadTo56() returns (ghost m: seq<bv8>, ghost d: seq<bv8>)
      requires Absorbed(message)
      modifies messageBlock, `messageBlockIndex, `h
      ensures m + d == message + PadBits(|message|) && |Tail(m)| + |d| == 56
      ensures h == Fold(Compress, INIT, m) && messageBlock[..56] == Tail(m) + d
    {
      hide Fold, Tail, Compress, PadBits, Zeros;
      if messageBlockIndex > 55 {
        m, d := PadToNext();
      } else {
        TailLength(message);
        PadSplit(|message|);
        m, d := message, [0x80] + Zeros(55 - messageBlockIndex);
        messageBlock[messageBlockIndex] := 0x80;
        messageBlockIndex := messageBlockIndex + 1;
        FillZeros(56);
      }
    }

    /** Both branches leave in the registers the fold over exactly the padded message. */
    method PadMessage()
      requires Absorbed(message) && |message| < 0x2000_0000_0000_0000
      modifies messageBlock, `messageBlockIndex, `h
      ensures h == Digest(message)
    {
      hide Fold, Tail, Compress, BigEndian64, PadBits;
      ghost var m, d := PadTo56();
      StoreLength();
      ghost var len := BigEndian64(8 * |message|);
      FoldComplete(Compress, INIT, m, d + len);
      assert m + (d + len) == Pad(message);
      assert messageBlock[..] == Tail(m) + (d + len);
      h := ProcessMessageBlock(h, messageBlock[..]);
      messageBlockIndex := 0;
    }

    /** The digest of everything input, the same on every call, or failure once corrupted. */
    method Result(digest: array<bv32>) returns (ok: bool)
      requires Valid() && digest.Length == 5
      modifies this, messageBlock, digest
      ensures Valid() && message == old(message) && corrupted == old(corrupted)
      ensures ok == !corrupted
      ensures if ok then computed && digest[..] == DigestWords(Digest(message)) else digest[..] == old(digest[..])
    {
      if corrupted {
        return false;
      }
      if !computed {
        PadMessage();
        computed := true;
      }
      var words := [h.a, h.b, h.c, h.d, h.e];
      for i := 0 to 5
        invariant forall j | 0 <= j < i :: digest[j] == words[j]
        modifies digest
      {
        digest[i] := words[i];
      }
      return true;
    }
  }

  /**
   * A digest of input that arrives in pieces, however it is cut: failure exactly past 2^64 bits,
   * otherwise the digest of the concatenation.
   */
  method HashPieces(pieces: seq<seq<bv8>>) returns (ok: bool, words: seq<bv32>)
    requires forall p | p in pieces :: |p| < 0x1_0000_0000
    ensures ok <==> |Flatten(pieces)| < 0x2000_0000_0000_0000
    ensures ok ==> words == DigestWords(Digest(Flatten(pieces)))
  {
    var sha := new Sha1();
    for i := 0 to |pieces|
      invariant sha.Valid() && fresh(sha) && fresh(sha.messageBlock) && !sha.computed
      invariant sha.corrupted <==> |Flatten(pieces[..i])| >= 0x2000_0000_0000_0000
      invariant !sha.corrupted ==> sha.message == Flatten(pieces[..i])
    {
      FlattenNext(pieces, i);
      sha.Input(pieces[i]);
    }
    assert pieces[..|pieces|] == pieces;
    var digest := new bv32[5];
    ok := sha.Result(digest);
    words := digest[..];
  }
}
