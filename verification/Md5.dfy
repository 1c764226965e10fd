/** The streaming MD5 of md5.c, and RFC 1321 as its specification. */
module Md5 {
  import opened Words
  import opened Blocks
  import Memory

  // ---------------------------------------------------------------- RFC 1321

  datatype Regs = Regs(a: bv32, b: bv32, c: bv32, d: bv32)

  const INIT := Regs(0x67452301, 0xefcdab89, 0x98badcfe, 0x10325476)

  function Choose(j: nat, c0: bv32, c1: bv32, c2: bv32, c3: bv32): bv32
  {
    if j == 0 then c0 else if j == 1 then c1 else if j == 2 then c2 else c3
  }

  /** The table T of section 3.4, counted from 0. */
  function T(i: nat): bv32
    requires i < 64
  {
    if i < 4 then Choose(i - 0, 0xd76aa478, 0xe8c7b756, 0x242070db, 0xc1bdceee) else
    if i < 8 then Choose(i - 4, 0xf57c0faf, 0x4787c62a, 0xa8304613, 0xfd469501) else
    if i < 12 then Choose(i - 8, 0x698098d8, 0x8b44f7af, 0xffff5bb1, 0x895cd7be) else
    if i < 16 then Choose(i - 12, 0x6b901122, 0xfd987193, 0xa679438e, 0x49b40821) else
    if i < 20 then Choose(i - 16, 0xf61e2562, 0xc040b340, 0x265e5a51, 0xe9b6c7aa) else
    if i < 24 then Choose(i - 20, 0xd62f105d, 0x02441453, 0xd8a1e681, 0xe7d3fbc8) else
    if i < 28 then Choose(i - 24, 0x21e1cde6, 0xc33707d6, 0xf4d50d87, 0x455a14ed) else
    if i < 32 then Choose(i - 28, 0xa9e3e905, 0xfcefa3f8, 0x676f02d9, 0x8d2a4c8a) else
    if i < 36 then Choose(i - 32, 0xfffa3942, 0x8771f681, 0x6d9d6122, 0xfde5380c) else
    if i < 40 then Choose(i - 36, 0xa4beea44, 0x4bdecfa9, 0xf6bb4b60, 0xbebfbc70) else
    if i < 44 then Choose(i - 40, 0x289b7ec6, 0xeaa127fa, 0xd4ef3085, 0x04881d05) else
    if i < 48 then Choose(i - 44, 0xd9d4d039, 0xe6db99e5, 0x1fa27cf8, 0xc4ac5665) else
    if i < 52 then Choose(i - 48, 0xf4292244, 0x432aff97, 0xab9423a7, 0xfc93a039) else
    if i < 56 then Choose(i - 52, 0x655b59c3, 0x8f0ccc92, 0xffeff47d, 0x85845dd1) else
    if i < 60 then Choose(i - 56, 0x6fa87e4f, 0xfe2ce6e0, 0xa3014314, 0x4e0811a1) else
    Choose(i - 60, 0xf7537e82, 0xbd3af235, 0x2ad7d2bb, 0xeb86d391)
  }

  function F(x: bv32, y: bv32, z: bv32): bv32 { (x & y) | (!x & z) }

  function G(x: bv32, y: bv32, z: bv32): bv32 { (x & z) | (y & !z) }

  function H(x: bv32, y: bv32, z: bv32): bv32 { x ^ y ^ z }

  function I(x: bv32, y: bv32, z: bv32): bv32 { y ^ (x | !z) }

  function Mix(i: nat, x: bv32, y: bv32, z: bv32): bv32
  {
    if i < 16 then F(x, y, z) else if i < 32 then G(x, y, z) else if i < 48 then H(x, y, z) else I(x, y, z)
  }

  /** Which word of the block step i reads. */
  function Index(i: nat): (k: nat)
    ensures k < 16
  {
    if i < 16 then i else if i < 32 then (5 * i + 1) % 16 else if i < 48 then (3 * i + 5) % 16 else (7 * i) % 16
  }

  function Pick(j: nat, s0: nat, s1: nat, s2: nat, s3: nat): nat
  {
    if j == 0 then s0 else if j == 1 then s1 else if j == 2 then s2 else s3
  }

  /** How far step i rotates. */
  function Shift(i: nat): (s: nat)
    requires i < 64
    ensures 0 < s < 32
  {
    if i < 16 then Pick(i % 4, 7, 12, 17, 22)
    else if i < 32 then Pick(i % 4, 5, 9, 14, 20)
    else if i < 48 then Pick(i % 4, 4, 11, 16, 23)
    else Pick(i % 4, 6, 10, 15, 21)
  }

  /** One operation: a = b + ((a + f + x + t) <<< s). */
  function Op(a: bv32, b: bv32, f: bv32, x: bv32, t: bv32, s: nat): bv32
    requires 0 < s < 32
  {
    Plus(RotateLeft(Plus(Plus(Plus(a, f), x), t), s), b)
  }

  /** Step i of section 3.4 on registers that rotate by one place. */
  function Step(r: Regs, x: seq<bv32>, i: nat): Regs
    requires |x| == 16 && i < 64
  {
    Regs(r.d, Op(r.a, r.b, Mix(i, r.b, r.c, r.d), x[Index(i)], T(i), Shift(i)), r.b, r.c)
  }

  /** The first n steps. */
  function Steps(r: Regs, x: seq<bv32>, n: nat): Regs
    requires |x| == 16 && n <= 64
  {
    if n == 0 then r else Step(Steps(r, x, n - 1), x, n - 1)
  }

  /** Word k of a block, low-order byte first. */
  function BlockWord(block: seq<bv8>, k: nat): bv32
    requires |block| == 64 && k < 16
  {
    (block[4 * k] as bv32) + ((block[4 * k + 1] as bv32) << 8) +
    ((block[4 * k + 2] as bv32) << 16) + ((block[4 * k + 3] as bv32) << 24)
  }

  function BlockWords(block: seq<bv8>): (x: seq<bv32>)
    requires |block| == 64
    ensures |x| == 16
    ensures forall k | 0 <= k < 16 :: x[k] == BlockWord(block, k)
  {
    seq(16, k requires 0 <= k < 16 => BlockWord(block, k))
  }

  function Add(r: Regs, s: Regs): Regs
  {
    Regs(Plus(r.a, s.a), Plus(r.b, s.b), Plus(r.c, s.c), Plus(r.d, s.d))
  }

  /** The block function of section 3.4. */
  function Compress(h: Regs, block: seq<bv8>): Regs
  {
    if |block| == 64 then Add(h, Steps(h, BlockWords(block), 64)) else h
  }

  /** Sections 3.1 and 3.2: padding bits, then the low 64 bits of the bit length. */
  function Pad(m: seq<bv8>): (r: seq<bv8>)
    ensures |r| % 64 == 0
  {
    m + PadBits(|m|) + LittleEndian64(8 * |m| % 0x1_0000_0000_0000_0000)
  }

  function Register(r: Regs, k: nat): bv32
  {
    if k == 0 then r.a else if k == 1 then r.b else if k == 2 then r.c else r.d
  }

  /** Section 3.5: from the low-order byte of a to the high-order byte of d. */
  function Output(r: Regs): (d: seq<bv8>)
    ensures |d| == 16
  {
    seq(16, i requires 0 <= i < 16 => RegisterByte(Register(r, i / 4), i % 4))
  }

  function Digest(m: seq<bv8>): (d: seq<bv8>)
    ensures |d| == 16
  {
    Output(Fold(Compress, INIT, Pad(m)))
  }

  // ---------------------------------------------- what the pieces mean, bit by bit

  /** The auxiliary functions of section 3.4 by their truth tables: the rows in which a bit of the result is set. */
  lemma AuxiliaryF(x: bv32, y: bv32, z: bv32)
    ensures F(x, y, z) == (x & y & z) | (x & y & !z) | (!x & y & z) | (!x & !y & z)
  {
  }

  lemma AuxiliaryG(x: bv32, y: bv32, z: bv32)
    ensures G(x, y, z) == (x & y & z) | (x & y & !z) | (x & !y & z) | (!x & y & !z)
  {
  }

  lemma AuxiliaryH(x: bv32, y: bv32, z: bv32)
    ensures H(x, y, z) == (x & y & z) | (x & !y & !z) | (!x & y & !z) | (!x & !y & z)
  {
  }

  lemma AuxiliaryI(x: bv32, y: bv32, z: bv32)
    ensures I(x, y, z) == (x & !y & z) | (x & !y & !z) | (!x & y & z) | (!x & !y & !z)
  {
  }

  /** The bytes of a word of the block, low-order byte first. */
  lemma BlockWordBytes(block: seq<bv8>, k: nat)
    requires |block| == 64 && k < 16
    ensures RegisterByte(BlockWord(block, k), 0) == block[4 * k]
    ensures RegisterByte(BlockWord(block, k), 1) == block[4 * k + 1]
    ensures RegisterByte(BlockWord(block, k), 2) == block[4 * k + 2]
    ensures RegisterByte(BlockWord(block, k), 3) == block[4 * k + 3]
  {
  }

  /** A step can be undone: take the last addend off, turn the bits on to where they were, and the sum is back. */
  lemma OpUndone(a: bv32, b: bv32, f: bv32, x: bv32, t: bv32, i: nat)
    requires i < 64
    ensures RotateLeft(Minus(Op(a, b, f, x, t, Shift(i)), b), 32 - Shift(i)) == Plus(Plus(Plus(a, f), x), t)
  {
    hide RotateLeft, Shift, Plus, Minus;
    var sum := Plus(Plus(Plus(a, f), x), t);
    PlusUndone(RotateLeft(sum, Shift(i)), b);
    Turned(sum, i);
  }

  lemma Turned(y: bv32, i: nat)
    requires i < 64
    ensures RotateLeft(RotateLeft(y, Shift(i)), 32 - Shift(i)) == y
  {
    hide RotateLeft;
    match Shift(i) {
      case 4 => TurnBack4(y);
      case 5 => TurnBack5(y);
      case 6 => TurnBack6(y);
      case 7 => TurnBack7(y);
      case 9 => TurnBack9(y);
      case 10 => TurnBack10(y);
      case 11 => TurnBack11(y);
      case 12 => TurnBack12(y);
      case 14 => TurnBack14(y);
      case 15 => TurnBack15(y);
      case 16 => TurnBack16(y);
      case 17 => TurnBack17(y);
      case 20 => TurnBack20(y);
      case 21 => TurnBack21(y);
      case 22 => TurnBack22(y);
      case 23 => TurnBack23(y);
    }
  }

  // ------------------------------------------------- the unrolled block function

  lemma NextStep(h: Regs, x: seq<bv32>, n: nat, r: Regs)
    requires |x| == 16 && n < 64 && r == Steps(h, x, n)
    ensures Steps(h, x, n + 1) == Regs(r.d, Op(r.a, r.b, Mix(n, r.b, r.c, r.d), x[Index(n)], T(n), Shift(n)), r.b, r.c)
  {
  }

  /** Row i of the schedule: which word, which rotation, which constant. */
  ghost predicate Row(i: nat, k: nat, s: nat, t: bv32)
  {
    i < 64 && Index(i) == k && Shift(i) == s && T(i) == t
  }

  // The constants of md5.c, some written as complements, are the rows of the schedule.

  lemma Rows1()
    ensures Row(0, 0, 7, 0xffff_ffff ^ 0x28955b87) && Row(1, 1, 12, 0xffff_ffff ^ 0x173848a9)
    ensures Row(2, 2, 17, 0x242070db) && Row(3, 3, 22, 0xffff_ffff ^ 0x3e423111)
    ensures Row(4, 4, 7, 0xffff_ffff ^ 0x0a83f050) && Row(5, 5, 12, 0x4787c62a)
    ensures Row(6, 6, 17, 0xffff_ffff ^ 0x57cfb9ec) && Row(7, 7, 22, 0xffff_ffff ^ 0x02b96afe)
    ensures Row(8, 8, 7, 0x698098d8) && Row(9, 9, 12, 0xffff_ffff ^ 0x74bb0850)
    ensures Row(10, 10, 17, 0xffff_ffff ^ 0x0000a44e) && Row(11, 11, 22, 0xffff_ffff ^ 0x76a32841)
    ensures Row(12, 12, 7, 0x6b901122) && Row(13, 13, 12, 0xffff_ffff ^ 0x02678e6c)
    ensures Row(14, 14, 17, 0xffff_ffff ^ 0x5986bc71) && Row(15, 15, 22, 0x49b40821)
  {
  }

  lemma Rows2()
    ensures Row(16, 1, 5, 0xffff_ffff ^ 0x09e1da9d) && Row(17, 6, 9, 0xffff_ffff ^ 0x3fbf4cbf)
    ensures Row(18, 11, 14, 0x265e5a51) && Row(19, 0, 20, 0xffff_ffff ^ 0x16493855)
    ensures Row(20, 5, 5, 0xffff_ffff ^ 0x29d0efa2) && Row(21, 10, 9, 0x02441453)
    ensures Row(22, 15, 14, 0xffff_ffff ^ 0x275e197e) && Row(23, 4, 20, 0xffff_ffff ^ 0x182c0437)
    ensures Row(24, 9, 5, 0x21e1cde6) && Row(25, 14, 9, 0xffff_ffff ^ 0x3cc8f829)
    ensures Row(26, 3, 14, 0xffff_ffff ^ 0x0b2af278) && Row(27, 8, 20, 0x455a14ed)
    ensures Row(28, 13, 5, 0xffff_ffff ^ 0x561c16fa) && Row(29, 2, 9, 0xffff_ffff ^ 0x03105c07)
    ensures Row(30, 7, 14, 0x676f02d9) && Row(31, 12, 20, 0xffff_ffff ^ 0x72d5b375)
  {
  }

  lemma Rows3()
    ensures Row(32, 5, 4, 0xffff_ffff ^ 0x0005c6bd) && Row(33, 8, 11, 0xffff_ffff ^ 0x788e097e)
    ensures Row(34, 11, 16, 0x6d9d6122) && Row(35, 14, 23, 0xffff_ffff ^ 0x021ac7f3)
    ensures Row(36, 1, 4, 0xffff_ffff ^ 0x5b4115bb) && Row(37, 4, 11, 0x4bdecfa9)
    ensures Row(38, 7, 16, 0xffff_ffff ^ 0x0944b49f) && Row(39, 10, 23, 0xffff_ffff ^ 0x4140438f)
    ensures Row(40, 13, 4, 0x289b7ec6) && Row(41, 0, 11, 0xffff_ffff ^ 0x155ed805)
    ensures Row(42, 3, 16, 0xffff_ffff ^ 0x2b10cf7a) && Row(43, 6, 23, 0x04881d05)
    ensures Row(44, 9, 4, 0xffff_ffff ^ 0x262b2fc6) && Row(45, 12, 11, 0xffff_ffff ^ 0x1924661a)
    ensures Row(46, 15, 16, 0x1fa27cf8) && Row(47, 2, 23, 0xffff_ffff ^ 0x3b53a99a)
  {
  }

  lemma Rows4()
    ensures Row(48, 0, 6, 0xffff_ffff ^ 0x0bd6ddbb) && Row(49, 7, 10, 0x432aff97)
    ensures Row(50, 14, 15, 0xffff_ffff ^ 0x546bdc58) && Row(51, 5, 21, 0xffff_ffff ^ 0x036c5fc6)
    ensures Row(52, 12, 6, 0x655b59c3) && Row(53, 3, 10, 0xffff_ffff ^ 0x70f3336d)
    ensures Row(54, 10, 15, 0xffff_ffff ^ 0x00100b82) && Row(55, 1, 21, 0xffff_ffff ^ 0x7a7ba22e)
    ensures Row(56, 8, 6, 0x6fa87e4f) && Row(57, 15, 10, 0xffff_ffff ^ 0x01d3191f)
    ensures Row(58, 6, 15, 0xffff_ffff ^ 0x5cfebceb) && Row(59, 13, 21, 0x4e0811a1)
    ensures Row(60, 4, 6, 0xffff_ffff ^ 0x08ac817d) && Row(61, 11, 10, 0xffff_ffff ^ 0x42c50dca)
    ensures Row(62, 2, 15, 0x2ad7d2bb) && Row(63, 9, 21, 0xffff_ffff ^ 0x14792c6e)
  {
  }

  // The 64 steps of md5_process, 16 to a round: the registers are renamed instead of rotated.

  method Round1(h: Regs, x: seq<bv32>, r0: Regs) returns (r: Regs)
    requires |x| == 16 && r0 == Steps(h, x, 0)
    ensures r == Steps(h, x, 16)
  {
    hide Op, F, G, H, I, Steps, Index, T, Shift;
    Rows1();
    var a, b, c, d := r0.a, r0.b, r0.c, r0.d;
    NextStep(h, x, 0, Regs(a, b, c, d));
    a := Op(a, b, F(b, c, d), x[0], 0xffff_ffff ^ 0x28955b87, 7);
    NextStep(h, x, 1, Regs(d, a, b, c));
    d := Op(d, a, F(a, b, c), x[1], 0xffff_ffff ^ 0x173848a9, 12);
    NextStep(h, x, 2, Regs(c, d, a, b));
    c := Op(c, d, F(d, a, b), x[2], 0x242070db, 17);
    NextStep(h, x, 3, Regs(b, c, d, a));
    b := Op(b, c, F(c, d, a), x[3], 0xffff_ffff ^ 0x3e423111, 22);
    NextStep(h, x, 4, Regs(a, b, c, d));
    a := Op(a, b, F(b, c, d), x[4], 0xffff_ffff ^ 0x0a83f050, 7);
    NextStep(h, x, 5, Regs(d, a, b, c));
    d := Op(d, a, F(a, b, c), x[5], 0x4787c62a, 12);
    NextStep(h, x, 6, Regs(c, d, a, b));
    c := Op(c, d, F(d, a, b), x[6], 0xffff_ffff ^ 0x57cfb9ec, 17);
    NextStep(h, x, 7, Regs(b, c, d, a));
    b := Op(b, c, F(c, d, a), x[7], 0xffff_ffff ^ 0x02b96afe, 22);
    NextStep(h, x, 8, Regs(a, b, c, d));
    a := Op(a, b, F(b, c, d), x[8], 0x698098d8, 7);
    NextStep(h, x, 9, Regs(d, a, b, c));
    d := Op(d, a, F(a, b, c), x[9], 0xffff_ffff ^ 0x74bb0850, 12);
    NextStep(h, x, 10, Regs(c, d, a, b));
    c := Op(c, d, F(d, a, b), x[10], 0xffff_ffff ^ 0x0000a44e, 17);
    NextStep(h, x, 11, Regs(b, c, d, a));
    b := Op(b, c, F(c, d, a), x[11], 0xffff_ffff ^ 0x76a32841, 22);
    NextStep(h, x, 12, Regs(a, b, c, d));
    a := Op(a, b, F(b, c, d), x[12], 0x6b901122, 7);
    NextStep(h, x, 13, Regs(d, a, b, c));
    d := Op(d, a, F(a, b, c), x[13], 0xffff_ffff ^ 0x02678e6c, 12);
    NextStep(h, x, 14, Regs(c, d, a, b));
    c := Op(c, d, F(d, a, b), x[14], 0xffff_ffff ^ 0x5986bc71, 17);
    NextStep(h, x, 15, Regs(b, c, d, a));
    b := Op(b, c, F(c, d, a), x[15], 0x49b40821, 22);
    r := Regs(a, b, c, d);
  }

  method Round2(h: Regs, x: seq<bv32>, r0: Regs) returns (r: Regs)
    requires |x| == 16 && r0 == Steps(h, x, 16)
    ensures r == Steps(h, x, 32)
  {
    hide Op, F, G, H, I, Steps, Index, T, Shift;
    Rows2();
    var a, b, c, d := r0.a, r0.b, r0.c, r0.d;
    NextStep(h, x, 16, Regs(a, b, c, d));
    a := Op(a, b, G(b, c, d), x[1], 0xffff_ffff ^ 0x09e1da9d, 5);
    NextStep(h, x, 17, Regs(d, a, b, c));
    d := Op(d, a, G(a, b, c), x[6], 0xffff_ffff ^ 0x3fbf4cbf, 9);
    NextStep(h, x, 18, Regs(c, d, a, b));
    c := Op(c, d, G(d, a, b), x[11], 0x265e5a51, 14);
    NextStep(h, x, 19, Regs(b, c, d, a));
    b := Op(b, c, G(c, d, a), x[0], 0xffff_ffff ^ 0x16493855, 20);
    NextStep(h, x, 20, Regs(a, b, c, d));
    a := Op(a, b, G(b, c, d), x[5], 0xffff_ffff ^ 0x29d0efa2, 5);
    NextStep(h, x, 21, Regs(d, a, b, c));
    d := Op(d, a, G(a, b, c), x[10], 0x02441453, 9);
    NextStep(h, x, 22, Regs(c, d, a, b));
    c := Op(c, d, G(d, a, b), x[15], 0xffff_ffff ^ 0x275e197e, 14);
    NextStep(h, x, 23, Regs(b, c, d, a));
    b := Op(b, c, G(c, d, a), x[4], 0xffff_ffff ^ 0x182c0437, 20);
    NextStep(h, x, 24, Regs(a, b, c, d));
    a := Op(a, b, G(b, c, d), x[9], 0x21e1cde6, 5);
    NextStep(h, x, 25, Regs(d, a, b, c));
    d := Op(d, a, G(a, b, c), x[14], 0xffff_ffff ^ 0x3cc8f829, 9);
    NextStep(h, x, 26, Regs(c, d, a, b));
    c := Op(c, d, G(d, a, b), x[3], 0xffff_ffff ^ 0x0b2af278, 14);
    NextStep(h, x, 27, Regs(b, c, d, a));
    b := Op(b, c, G(c, d, a), x[8], 0x455a14ed, 20);
    NextStep(h, x, 28, Regs(a, b, c, d));
    a := Op(a, b, G(b, c, d), x[13], 0xffff_ffff ^ 0x561c16fa, 5);
    NextStep(h, x, 29, Regs(d, a, b, c));
    d := Op(d, a, G(a, b, c), x[2], 0xffff_ffff ^ 0x03105c07, 9);
    NextStep(h, x, 30, Regs(c, d, a, b));
    c := Op(c, d, G(d, a, b), x[7], 0x676f02d9, 14);
    NextStep(h, x, 31, Regs(b, c, d, a));
    b := Op(b, c, G(c, d, a), x[12], 0xffff_ffff ^ 0x72d5b375, 20);
    r := Regs(a, b, c, d);
  }

  method Round3(h: Regs, x: seq<bv32>, r0: Regs) returns (r: Regs)
    requires |x| == 16 && r0 == Steps(h, x, 32)
    ensures r == Steps(h, x, 48)
  {
    hide Op, F, G, H, I, Steps, Index, T, Shift;
    Rows3();
    var a, b, c, d := r0.a, r0.b, r0.c, r0.d;
    NextStep(h, x, 32, Regs(a, b, c, d));
    a := Op(a, b, H(b, c, d), x[5], 0xffff_ffff ^ 0x0005c6bd, 4);
    NextStep(h, x, 33, Regs(d, a, b, c));
    d := Op(d, a, H(a, b, c), x[8], 0xffff_ffff ^ 0x788e097e, 11);
    NextStep(h, x, 34, Regs(c, d, a, b));
    c := Op(c, d, H(d, a, b), x[11], 0x6d9d6122, 16);
    NextStep(h, x, 35, Regs(b, c, d, a));
    b := Op(b, c, H(c, d, a), x[14], 0xffff_ffff ^ 0x021ac7f3, 23);
    NextStep(h, x, 36, Regs(a, b, c, d));
    a := Op(a, b, H(b, c, d), x[1], 0xffff_ffff ^ 0x5b4115bb, 4);
    NextStep(h, x, 37, Regs(d, a, b, c));
    d := Op(d, a, H(a, b, c), x[4], 0x4bdecfa9, 11);
    NextStep(h, x, 38, Regs(c, d, a, b));
    c := Op(c, d, H(d, a, b), x[7], 0xffff_ffff ^ 0x0944b49f, 16);
    NextStep(h, x, 39, Regs(b, c, d, a));
    b := Op(b, c, H(c, d, a), x[10], 0xffff_ffff ^ 0x4140438f, 23);
    NextStep(h, x, 40, Regs(a, b, c, d));
    a := Op(a, b, H(b, c, d), x[13], 0x289b7ec6, 4);
    NextStep(h, x, 41, Regs(d, a, b, c));
    d := Op(d, a, H(a, b, c), x[0], 0xffff_ffff ^ 0x155ed805, 11);
    NextStep(h, x, 42, Regs(c, d, a, b));
    c := Op(c, d, H(d, a, b), x[3], 0xffff_ffff ^ 0x2b10cf7a, 16);
    NextStep(h, x, 43, Regs(b, c, d, a));
    b := Op(b, c, H(c, d, a), x[6], 0x04881d05, 23);
    NextStep(h, x, 44, Regs(a, b, c, d));
    a := Op(a, b, H(b, c, d), x[9], 0xffff_ffff ^ 0x262b2fc6, 4);
    NextStep(h, x, 45, Regs(d, a, b, c));
    d := Op(d, a, H(a, b, c), x[12], 0xffff_ffff ^ 0x1924661a, 11);
    NextStep(h, x, 46, Regs(c, d, a, b));
    c := Op(c, d, H(d, a, b), x[15], 0x1fa27cf8, 16);
    NextStep(h, x, 47, Regs(b, c, d, a));
    b := Op(b, c, H(c, d, a), x[2], 0xffff_ffff ^ 0x3b53a99a, 23);
    r := Regs(a, b, c, d);
  }

  method Round4(h: Regs, x: seq<bv32>, r0: Regs) returns (r: Regs)
    requires |x| == 16 && r0 == Steps(h, x, 48)
    ensures r == Steps(h, x, 64)
  {
    hide Op, F, G, H, I, Steps, Index, T, Shift;
    Rows4();
    var a, b, c, d := r0.a, r0.b, r0.c, r0.d;
    NextStep(h, x, 48, Regs(a, b, c, d));
    a := Op(a, b, I(b, c, d), x[0], 0xffff_ffff ^ 0x0bd6ddbb, 6);
    NextStep(h, x, 49, Regs(d, a, b, c));
    d := Op(d, a, I(a, b, c), x[7], 0x432aff97, 10);
    NextStep(h, x, 50, Regs(c, d, a, b));
    c := Op(c, d, I(d, a, b), x[14], 0xffff_ffff ^ 0x546bdc58, 15);
    NextStep(h, x, 51, Regs(b, c, d, a));
    b := Op(b, c, I(c, d, a), x[5], 0xffff_ffff ^ 0x036c5fc6, 21);
    NextStep(h, x, 52, Regs(a, b, c, d));
    a := Op(a, b, I(b, c, d), x[12], 0x655b59c3, 6);
    NextStep(h, x, 53, Regs(d, a, b, c));
    d := Op(d, a, I(a, b, c), x[3], 0xffff_ffff ^ 0x70f3336d, 10);
    NextStep(h, x, 54, Regs(c, d, a, b));
    c := Op(c, d, I(d, a, b), x[10], 0xffff_ffff ^ 0x00100b82, 15);
    NextStep(h, x, 55, Regs(b, c, d, a));
    b := Op(b, c, I(c, d, a), x[1], 0xffff_ffff ^ 0x7a7ba22e, 21);
    NextStep(h, x, 56, Regs(a, b, c, d));
    a := Op(a, b, I(b, c, d), x[8], 0x6fa87e4f, 6);
    NextStep(h, x, 57, Regs(d, a, b, c));
    d := Op(d, a, I(a, b, c), x[15], 0xffff_ffff ^ 0x01d3191f, 10);
    NextStep(h, x, 58, Regs(c, d, a, b));
    c := Op(c, d, I(d, a, b), x[6], 0xffff_ffff ^ 0x5cfebceb, 15);
    NextStep(h, x, 59, Regs(b, c, d, a));
    b := Op(b, c, I(c, d, a), x[13], 0x4e0811a1, 21);
    NextStep(h, x, 60, Regs(a, b, c, d));
    a := Op(a, b, I(b, c, d), x[4], 0xffff_ffff ^ 0x08ac817d, 6);
    NextStep(h, x, 61, Regs(d, a, b, c));
    d := Op(d, a, I(a, b, c), x[11], 0xffff_ffff ^ 0x42c50dca, 10);
    NextStep(h, x, 62, Regs(c, d, a, b));
    c := Op(c, d, I(d, a, b), x[2], 0x2ad7d2bb, 15);
    NextStep(h, x, 63, Regs(b, c, d, a));
    b := Op(b, c, I(c, d, a), x[9], 0xffff_ffff ^ 0x14792c6e, 21);
    r := Regs(a, b, c, d);
  }

  /** Section 3.4: all four rounds, then the additions. */
  method Process(h: Regs, block: seq<bv8>) returns (r: Regs)
    requires |block| == 64
    ensures r == Compress(h, block)
  {
    hide Plus;
    var x := BlockWords(block);
    assert h == Steps(h, x, 0);
    r := Round1(h, x, h);
    r := Round2(h, x, r);
    r := Round3(h, x, r);
    r := Round4(h, x, r);
    r := Regs(Plus(h.a, r.a), Plus(h.b, r.b), Plus(h.c, r.c), Plus(h.d, r.d));
  }

  // ------------------------------------------------------------- the streaming state

  /** The counter words hold the bit length of n bytes, modulo 2^64. */
  ghost predicate Counts(lo: word, hi: word, n: nat)
  {
    lo == 8 * n % 0x1_0000_0000 && hi == 8 * n / 0x1_0000_0000 % 0x1_0000_0000
  }

  /** The low counter word after k more bytes. */
  function AddLow(lo: word, k: nat): word
  {
    (lo + 8 * k % 0x1_0000_0000) % 0x1_0000_0000
  }

  /** The high counter word after k more bytes: the high half of the bit count, then the carry. */
  function AddHigh(lo: word, hi: word, k: nat): word
  {
    var hi' := (hi + k / 0x2000_0000) % 0x1_0000_0000;
    if AddLow(lo, k) < 8 * k % 0x1_0000_0000 then (hi' + 1) % 0x1_0000_0000 else hi'
  }

  /** The carry logic of md5_append is exact for every length and across every wrap-around. */
  lemma CounterCarry(n: nat, k: nat, lo: word, hi: word)
    requires Counts(lo, hi, n)
    ensures Counts(AddLow(lo, k), AddHigh(lo, hi, k), n + k)
  {
    var M := 0x1_0000_0000;
    var q, p, nbits := 8 * n / M, k / 0x2000_0000, 8 * k % M;
    DivMod(8 * k, M, p, 8 * (k % 0x2000_0000));
    var carry := if lo + nbits < M then 0 else 1;
    DivMod(lo + nbits, M, carry, lo + nbits - carry * M);
    DivMod(8 * (n + k), M, q + p + carry, lo + nbits - carry * M);
    AddMod(q, p, M);
    AddMod(q + p, carry, M);
  }

  lemma DivMod(x: int, d: int, q: int, r: int)
    requires d > 0 && x == q * d + r && 0 <= r < d
    ensures x / d == q && x % d == r
  {
    var k := x / d - q;
    assert k * d == r - x % d;
    assert k >= 1 ==> k * d >= d;
    assert k <= -1 ==> k * d <= -d;
  }

  lemma AddMod(x: nat, y: nat, d: nat)
    requires d > 0
    ensures (x + y) % d == (x % d + y) % d
  {
    var r := (x % d + y) % d;
    var q := (x % d + y) / d;
    assert x + y == (x / d) * d + (x % d + y) == (x / d + q) * d + r;
    DivMod(x + y, d, x / d + q, r);
  }

  /** The offset md5_append derives from the low counter word, even after that word wrapped. */
  lemma OffsetFromCounter(n: nat, lo: word, hi: word)
    requires Counts(lo, hi, n)
    ensures lo / 8 % 64 == n % 64
  {
    var q := 8 * n / 0x1_0000_0000;
    assert lo == 8 * (n - q * 0x2000_0000);
    DivMod(lo, 8, n - q * 0x2000_0000, 0);
    DivMod(lo / 8, 64, n / 64 - q * 0x80_0000, n % 64);
  }

  lemma LengthWords(n: nat, lo: word, hi: word)
    requires Counts(lo, hi, n)
    ensures lo == 8 * n % 0x1_0000_0000_0000_0000 % 0x1_0000_0000
    ensures hi == 8 * n % 0x1_0000_0000_0000_0000 / 0x1_0000_0000
  {
    var M := 0x1_0000_0000;
    var u := 8 * n / M / M;
    DivMod(8 * n, M * M, u, hi * M + lo);
    DivMod(hi * M + lo, M, hi, lo);
  }

  /** The number of padding bytes depends on the length only through the offset. */
  lemma PaddingLength(x: nat, n: nat)
    requires x % 64 == n % 64
    ensures (55 - x) % 64 == ZeroCount(n)
  {
    DivMod(55 - x, 64, (55 - n) / 64 + (n / 64 - x / 64), (55 - n) % 64);
  }

  /** The two counter words as the eight bytes that end the padding. */
  method SaveLength(lo: word, hi: word, ghost n: nat) returns (data: seq<bv8>)
    requires Counts(lo, hi, n)
    ensures data == LittleEndian64(8 * n % 0x1_0000_0000_0000_0000)
  {
    LengthWords(n, lo, hi);
    data := [];
    for i := 0 to 8
      invariant |data| == i
      invariant forall j | 0 <= j < i :: data[j] == CounterByte(if j / 4 == 0 then lo else hi, j % 4)
    {
      data := data + [CounterByte(if i / 4 == 0 then lo else hi, i % 4)];
    }
  }

  /** The registers as bytes. */
  method StoreDigest(r: Regs) returns (digest: seq<bv8>)
    ensures digest == Output(r)
  {
    hide RegisterByte;
    var abcd := [r.a, r.b, r.c, r.d];
    digest := [];
    for i := 0 to 16
      invariant |digest| == i
      invariant forall j | 0 <= j < i :: digest[j] == RegisterByte(Register(r, j / 4), j % 4)
    {
      digest := digest + [RegisterByte(abcd[i / 4], i % 4)];
    }
  }

  class Md5State {
    var count0: word
    var count1: word
    var abcd: Regs
    const buf: array<bv8>
    ghost var message: seq<bv8>

    /** The counters, the registers and the pending bytes are those of the message absorbed so far. */
    ghost predicate Valid()
      reads this, buf
    {
      && buf.Length == 64
      && Counts(count0, count1, |message|)
      && abcd == Fold(Compress, INIT, message)
      && buf[..|Tail(message)|] == Tail(message)
    }

    constructor Init()
      ensures Valid() && message == [] && fresh(buf)
    {
      count0, count1 := 0, 0;
      abcd := Regs(0x67452301, 0xefcdab89, 0x98badcfe, 0x10325476);
      buf := new bv8[64];
      message := [];
    }

    /** The length update, with its carry; n is the length so far. */
    method AddLength(nbytes: nat, ghost n: nat)
      requires Counts(count0, count1, n)
      modifies `count0, `count1
      ensures Counts(count0, count1, n + nbytes)
    {
      CounterCarry(n, nbytes, count0, count1);
      var nbits: word := 8 * nbytes % 0x1_0000_0000;
      count1 := (count1 + nbytes / 0x2000_0000) % 0x1_0000_0000;
      count0 := (count0 + nbits) % 0x1_0000_0000;
      if count0 < nbits {
        count1 := (count1 + 1) % 0x1_0000_0000;
      }
    }

    /** The loop over whole blocks; m is what the registers have absorbed. */
    method ProcessBlocks(data: seq<bv8>, ghost m: seq<bv8>) returns (p: nat)
      requires Tail(m) == [] && abcd == Fold(Compress, INIT, m)
      modifies `abcd
      ensures p <= |data| < p + 64
      ensures Tail(m + data[..p]) == [] && abcd == Fold(Compress, INIT, m + data[..p])
    {
      hide Fold, Tail, Compress;
      p := 0;
      ghost var done := m;
      assert m + data[..0] == m;
      while |data| - p >= 64
        invariant p <= |data| && done == m + data[..p]
        invariant Tail(done) == [] && abcd == Fold(Compress, INIT, done)
      {
        var block := data[p..p + 64];
        FoldComplete(Compress, INIT, done, block);
        assert [] + block == block && data[..p + 64] == data[..p] + block;
        abcd := Process(abcd, block);
        done, p := done + block, p + 64;
      }
    }

    /** Process an initial partial block: fill it up, or, when data does not suffice, only add to it. */
    method FillPartial(data: seq<bv8>, offset: nat, ghost m: seq<bv8>) returns (copy: nat, done: bool)
      requires buf.Length == 64 && offset == |Tail(m)| && buf[..offset] == Tail(m) && abcd == Fold(Compress, INIT, m)
      modifies buf, `abcd
      ensures copy <= |data| && done == (offset + |data| < 64)
      ensures done ==> buf[..|Tail(m + data)|] == Tail(m + data) && abcd == Fold(Compress, INIT, m + data)
      ensures !done ==> Tail(m + data[..copy]) == [] && abcd == Fold(Compress, INIT, m + data[..copy])
    {
      hide Fold, Tail, Compress;
      copy := if offset + |data| > 64 then 64 - offset else |data|;
      Memory.Copy(buf, offset, data[..copy]);
      assert buf[..offset + copy] == Tail(m) + data[..copy];
      done := offset + copy < 64;
      if done {
        assert data[..copy] == data;
        FoldLengthen(Compress, INIT, m, data);
      } else {
        FoldComplete(Compress, INIT, m, data[..copy]);
        assert buf[..] == buf[..64];
        abcd := Process(abcd, buf[..]);
      }
    }

    method Append(data: seq<bv8>)
      requires Valid() && |data| <= 0x1_0000_0000_0000_0000 - 64
      modifies this, buf
      ensures Valid() && message == old(message) + data
    {
      hide Fold, Tail, Compress, Counts;
      OffsetFromCounter(|message|, count0, count1);
      TailLength(message);
      var offset := count0 / 8 % 64;
      if |data| == 0 {
        return;
      }
      AddLength(|data|, |message|);
      ghost var m := message;
      message := m + data;

      var rest := data;
      if offset != 0 {
        var copy, done := FillPartial(data, offset, m);
        if done {
          return;
        }
        m, rest := m + data[..copy], data[copy..];
        assert m + rest == message;
      }

      var p := ProcessBlocks(rest, m);
      FoldLengthen(Compress, INIT, m + rest[..p], rest[p..]);
      assert m + rest[..p] + rest[p..] == m + rest;
      if p < |rest| {
        Memory.Copy(buf, 0, rest[p..]);
      }
    }

    /** The digest of everything appended. The state has then absorbed the padded message too. */
    method Finish() returns (digest: seq<bv8>)
      requires Valid()
      modifies this, buf
      ensures Valid() && message == Pad(old(message))
      ensures digest == Digest(old(message))
    {
      hide Fold, Tail, Compress, Counts, LittleEndian64, Output;
      var data := SaveLength(count0, count1, |message|);
      OffsetFromCounter(|message|, count0, count1);
      PaddingLength(count0 / 8, |message|);
      var pad: seq<bv8> := [0x80] + Zeros(63);
      var padding := (55 - count0 / 8) % 64 + 1;
      assert pad[..padding] == PadBits(|message|);
      Append(pad[..padding]);
      Append(data);
      digest := StoreDigest(abcd);
    }
  }

  /**
   * Hashing a message that arrives in pieces, however it is cut. md5_hash_string of md5.hpp is the case of one piece.
   */
  method HashPieces(pieces: seq<seq<bv8>>) returns (digest: seq<bv8>)
    requires forall p | p in pieces :: |p| <= 0x1_0000_0000_0000_0000 - 64
    ensures digest == Digest(Flatten(pieces))
  {
    var state := new Md5State.Init();
    for i := 0 to |pieces|
      invariant state.Valid() && fresh(state) && fresh(state.buf)
      invariant state.message == Flatten(pieces[..i])
    {
      FlattenNext(pieces, i);
      state.Append(pieces[i]);
    }
    assert pieces[..|pieces|] == pieces;
    digest := state.Finish();
  }
}
