/** Bytes, 32-bit words and byte orders shared by the two hashes. */
module Words {

  /** A 32-bit unsigned counter, kept as a number: every update writes out its wrap-around. */
  type word = n: nat | n < 0x1_0000_0000 witness 0

  /** Circular left shift, as section 3 of FIPS PUB 180-1 defines it and as both programs code it. */
  function RotateLeft(x: bv32, n: nat): bv32
    requires 0 < n < 32
  {
    (x << n) | (x >> (32 - n))
  }

  /** Addition modulo 2^32. */
  function Plus(x: bv32, y: bv32): bv32
  {
    x + y
  }

  function Minus(x: bv32, y: bv32): bv32
  {
    x - y
  }

  /** Adding nothing, and adding one more: with these two, addition is fixed. */
  lemma PlusZero(x: bv32)
    ensures Plus(x, 0) == x
  {
  }

  lemma PlusNext(x: bv32, y: bv32)
    ensures Plus(x, y + 1) == Plus(x, y) + 1
  {
  }

  /** What was added can be taken off again. */
  lemma PlusUndone(x: bv32, y: bv32)
    ensures Minus(Plus(x, y), y) == x && Minus(Plus(x, y), x) == y
  {
  }

  function ToByte(n: nat): bv8
    requires n < 256
  {
    n as bv8
  }

  function Value(b: bv8): nat { b as int }

  lemma ByteValue(n: nat)
    requires n < 256
    ensures Value(ToByte(n)) == n % 256
  {
  }

  /** Byte i of a counter word, least significant first. */
  function CounterByte(v: word, i: nat): bv8
    requires i < 4
  {
    ToByte(v / (if i == 0 then 1 else if i == 1 then 0x100 else if i == 2 then 0x1_0000 else 0x100_0000) % 256)
  }

  /** Byte i of a register, least significant first. */
  function RegisterByte(w: bv32, i: nat): bv8
    requires i < 4
  {
    ((if i == 0 then w else if i == 1 then w >> 8 else if i == 2 then w >> 16 else w >> 24) & 0xff) as bv8
  }

  /** A 64-bit length as two words, low-order word first, low-order byte first (section 3.2 of RFC 1321). */
  function LittleEndian64(v: nat): (r: seq<bv8>)
    requires v < 0x1_0000_0000_0000_0000
    ensures |r| == 8
  {
    seq(8, i requires 0 <= i < 8 =>
      CounterByte(if i / 4 == 0 then v % 0x1_0000_0000 else v / 0x1_0000_0000, i % 4))
  }

  /** A 64-bit length as two words, high-order word first, high-order byte first (section 4 of FIPS PUB 180-1). */
  function BigEndian64(v: nat): (r: seq<bv8>)
    requires v < 0x1_0000_0000_0000_0000
    ensures |r| == 8
  {
    seq(8, i requires 0 <= i < 8 =>
      CounterByte(if i / 4 == 0 then v / 0x1_0000_0000 else v % 0x1_0000_0000, 3 - i % 4))
  }

  // ------------------------------------------- what these functions mean for the bits

  /** The bytes of a counter add up to it, least significant first. */
  lemma CounterBytes(v: word)
    ensures Value(CounterByte(v, 0)) + 0x100 * Value(CounterByte(v, 1))
            + 0x1_0000 * Value(CounterByte(v, 2)) + 0x100_0000 * Value(CounterByte(v, 3)) == v
  {
    hide ToByte, Value, CounterByte;
    CounterDigit(v, 0, 1);
    CounterDigit(v, 1, 0x100);
    CounterDigit(v, 2, 0x1_0000);
    CounterDigit(v, 3, 0x100_0000);
    Digits(v);
  }

  lemma CounterDigit(v: word, i: nat, unit: nat)
    requires i < 4
    requires unit == if i == 0 then 1 else if i == 1 then 0x100 else if i == 2 then 0x1_0000 else 0x100_0000
    ensures Value(CounterByte(v, i)) == v / unit % 256
  {
    hide ToByte, Value;
    ByteValue(v / unit % 256);
  }

  lemma Digits(v: word)
    ensures v / 1 % 256 + 0x100 * (v / 0x100 % 256) + 0x1_0000 * (v / 0x1_0000 % 256) + 0x100_0000 * (v / 0x100_0000 % 256)
            == v
  {
    var a := v / 0x100;
    var b := a / 0x100;
    var c := b / 0x100;
    assert v / 0x1_0000 == b && v / 0x100_0000 == c;
  }

  // Each byte of a register, in its place.

  lemma RegisterByte0(w: bv32)
    ensures RegisterByte(w, 0) as bv32 == w & 0xff
  {
  }

  lemma RegisterByte1(w: bv32)
    ensures (RegisterByte(w, 1) as bv32) << 8 == w & 0xff00
  {
  }

  lemma RegisterByte2(w: bv32)
    ensures (RegisterByte(w, 2) as bv32) << 16 == w & 0xff0000
  {
  }

  lemma RegisterByte3(w: bv32)
    ensures (RegisterByte(w, 3) as bv32) << 24 == w & 0xff000000
  {
  }

  // A rotation by n puts the low 32 - n bits on top and the high n bits below them; one lemma for each rotation
  // the two hashes use.

  lemma Rotation1(x: bv32)
    ensures RotateLeft(x, 1) >> 1 == x & 0x7fffffff && RotateLeft(x, 1) & 0x1 == x >> 31
  {
  }

  lemma Rotation4(x: bv32)
    ensures RotateLeft(x, 4) >> 4 == x & 0xfffffff && RotateLeft(x, 4) & 0xf == x >> 28
  {
  }

  lemma Rotation5(x: bv32)
    ensures RotateLeft(x, 5) >> 5 == x & 0x7ffffff && RotateLeft(x, 5) & 0x1f == x >> 27
  {
  }

  lemma Rotation6(x: bv32)
    ensures RotateLeft(x, 6) >> 6 == x & 0x3ffffff && RotateLeft(x, 6) & 0x3f == x >> 26
  {
  }

  lemma Rotation7(x: bv32)
    ensures RotateLeft(x, 7) >> 7 == x & 0x1ffffff && RotateLeft(x, 7) & 0x7f == x >> 25
  {
  }

  lemma Rotation9(x: bv32)
    ensures RotateLeft(x, 9) >> 9 == x & 0x7fffff && RotateLeft(x, 9) & 0x1ff == x >> 23
  {
  }

  lemma Rotation10(x: bv32)
    ensures RotateLeft(x, 10) >> 10 == x & 0x3fffff && RotateLeft(x, 10) & 0x3ff == x >> 22
  {
  }

  lemma Rotation11(x: bv32)
    ensures RotateLeft(x, 11) >> 11 == x & 0x1fffff && RotateLeft(x, 11) & 0x7ff == x >> 21
  {
  }

  lemma Rotation12(x: bv32)
    ensures RotateLeft(x, 12) >> 12 == x & 0xfffff && RotateLeft(x, 12) & 0xfff == x >> 20
  {
  }

  lemma Rotation14(x: bv32)
    ensures RotateLeft(x, 14) >> 14 == x & 0x3ffff && RotateLeft(x, 14) & 0x3fff == x >> 18
  {
  }

  lemma Rotation15(x: bv32)
    ensures RotateLeft(x, 15) >> 15 == x & 0x1ffff && RotateLeft(x, 15) & 0x7fff == x >> 17
  {
  }

  lemma Rotation16(x: bv32)
    ensures RotateLeft(x, 16) >> 16 == x & 0xffff && RotateLeft(x, 16) & 0xffff == x >> 16
  {
  }

  lemma Rotation17(x: bv32)
    ensures RotateLeft(x, 17) >> 17 == x & 0x7fff && RotateLeft(x, 17) & 0x1ffff == x >> 15
  {
  }

  lemma Rotation20(x: bv32)
    ensures RotateLeft(x, 20) >> 20 == x & 0xfff && RotateLeft(x, 20) & 0xfffff == x >> 12
  {
  }

  lemma Rotation21(x: bv32)
    ensures RotateLeft(x, 21) >> 21 == x & 0x7ff && RotateLeft(x, 21) & 0x1fffff == x >> 11
  {
  }

  lemma Rotation22(x: bv32)
    ensures RotateLeft(x, 22) >> 22 == x & 0x3ff && RotateLeft(x, 22) & 0x3fffff == x >> 10
  {
  }

  lemma Rotation23(x: bv32)
    ensures RotateLeft(x, 23) >> 23 == x & 0x1ff && RotateLeft(x, 23) & 0x7fffff == x >> 9
  {
  }

  lemma Rotation30(x: bv32)
    ensures RotateLeft(x, 30) >> 30 == x & 0x3 && RotateLeft(x, 30) & 0x3fffffff == x >> 2
  {
  }

  // Turned on by 32 - n places, every bit is back.

  lemma TurnBack1(x: bv32)
    ensures RotateLeft(RotateLeft(x, 1), 31) == x
  {
    var y := (x << 1) | (x >> 31);
    assert RotateLeft(x, 1) == y && RotateLeft(y, 31) == (y << 31) | (y >> 1);
  }

  lemma TurnBack4(x: bv32)
    ensures RotateLeft(RotateLeft(x, 4), 28) == x
  {
    var y := (x << 4) | (x >> 28);
    assert RotateLeft(x, 4) == y && RotateLeft(y, 28) == (y << 28) | (y >> 4);
  }

  lemma TurnBack5(x: bv32)
    ensures RotateLeft(RotateLeft(x, 5), 27) == x
  {
    var y := (x << 5) | (x >> 27);
    assert RotateLeft(x, 5) == y && RotateLeft(y, 27) == (y << 27) | (y >> 5);
  }

  lemma TurnBack6(x: bv32)
    ensures RotateLeft(RotateLeft(x, 6), 26) == x
  {
    var y := (x << 6) | (x >> 26);
    assert RotateLeft(x, 6) == y && RotateLeft(y, 26) == (y << 26) | (y >> 6);
  }

  lemma TurnBack7(x: bv32)
    ensures RotateLeft(RotateLeft(x, 7), 25) == x
  {
    var y := (x << 7) | (x >> 25);
    assert RotateLeft(x, 7) == y && RotateLeft(y, 25) == (y << 25) | (y >> 7);
  }

  lemma TurnBack9(x: bv32)
    ensures RotateLeft(RotateLeft(x, 9), 23) == x
  {
    var y := (x << 9) | (x >> 23);
    assert RotateLeft(x, 9) == y && RotateLeft(y, 23) == (y << 23) | (y >> 9);
  }

  lemma TurnBack10(x: bv32)
    ensures RotateLeft(RotateLeft(x, 10), 22) == x
  {
    var y := (x << 10) | (x >> 22);
    assert RotateLeft(x, 10) == y && RotateLeft(y, 22) == (y << 22) | (y >> 10);
  }

  lemma TurnBack11(x: bv32)
    ensures RotateLeft(RotateLeft(x, 11), 21) == x
  {
    var y := (x << 11) | (x >> 21);
    assert RotateLeft(x, 11) == y && RotateLeft(y, 21) == (y << 21) | (y >> 11);
  }

  lemma TurnBack12(x: bv32)
    ensures RotateLeft(RotateLeft(x, 12), 20) == x
  {
    var y := (x << 12) | (x >> 20);
    assert RotateLeft(x, 12) == y && RotateLeft(y, 20) == (y << 20) | (y >> 12);
  }

  lemma TurnBack14(x: bv32)
    ensures RotateLeft(RotateLeft(x, 14), 18) == x
  {
    var y := (x << 14) | (x >> 18);
    assert RotateLeft(x, 14) == y && RotateLeft(y, 18) == (y << 18) | (y >> 14);
  }

  lemma TurnBack15(x: bv32)
    ensures RotateLeft(RotateLeft(x, 15), 17) == x
  {
    var y := (x << 15) | (x >> 17);
    assert RotateLeft(x, 15) == y && RotateLeft(y, 17) == (y << 17) | (y >> 15);
  }

  lemma TurnBack16(x: bv32)
    ensures RotateLeft(RotateLeft(x, 16), 16) == x
  {
    var y := (x << 16) | (x >> 16);
    assert RotateLeft(x, 16) == y && RotateLeft(y, 16) == (y << 16) | (y >> 16);
  }

  lemma TurnBack17(x: bv32)
    ensures RotateLeft(RotateLeft(x, 17), 15) == x
  {
    var y := (x << 17) | (x >> 15);
    assert RotateLeft(x, 17) == y && RotateLeft(y, 15) == (y << 15) | (y >> 17);
  }

  lemma TurnBack20(x: bv32)
    ensures RotateLeft(RotateLeft(x, 20), 12) == x
  {
    var y := (x << 20) | (x >> 12);
    assert RotateLeft(x, 20) == y && RotateLeft(y, 12) == (y << 12) | (y >> 20);
  }

  lemma TurnBack21(x: bv32)
    ensures RotateLeft(RotateLeft(x, 21), 11) == x
  {
    var y := (x << 21) | (x >> 11);
    assert RotateLeft(x, 21) == y && RotateLeft(y, 11) == (y << 11) | (y >> 21);
  }

  lemma TurnBack22(x: bv32)
    ensures RotateLeft(RotateLeft(x, 22), 10) == x
  {
    var y := (x << 22) | (x >> 10);
    assert RotateLeft(x, 22) == y && RotateLeft(y, 10) == (y << 10) | (y >> 22);
  }

  lemma TurnBack23(x: bv32)
    ensures RotateLeft(RotateLeft(x, 23), 9) == x
  {
    var y := (x << 23) | (x >> 9);
    assert RotateLeft(x, 23) == y && RotateLeft(y, 9) == (y << 9) | (y >> 23);
  }
}
