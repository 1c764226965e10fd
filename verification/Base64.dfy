/** base64_encode and base64_decode of base64.cpp, and section 4 of RFC 4648 as their specification. */
module Base64 {

  // -------------------------------------------------------------- the alphabet

  /** base64_chars[i]. */
  function LetterAt(i: nat): char
    requires i < 64
  {
    if i < 26 then (65 + i) as char
    else if i < 52 then (97 + i - 26) as char
    else if i < 62 then (48 + i - 52) as char
    else if i == 62 then '+' else '/'
  }

  /** The table of section 4 of RFC 4648, in four lines. */
  lemma Alphabet(i: nat)
    requires i < 16
    ensures LetterAt(i) == "ABCDEFGHIJKLMNOP"[i] && LetterAt(16 + i) == "QRSTUVWXYZabcdef"[i]
    ensures LetterAt(32 + i) == "ghijklmnopqrstuv"[i] && LetterAt(48 + i) == "wxyz0123456789+/"[i]
  {
  }

  /** base64_chars.find(c) stored in an unsigned char: npos, for a character not in the table, becomes 255. */
  function IndexOf(c: char): (i: nat)
    ensures i < 256
  {
    if 'A' <= c <= 'Z' then c as int - 65
    else if 'a' <= c <= 'z' then c as int - 71
    else if '0' <= c <= '9' then c as int + 4
    else if c == '+' then 62
    else if c == '/' then 63
    else 255
  }

  predicate IsBase64(c: char)
  {
    'A' <= c <= 'Z' || 'a' <= c <= 'z' || '0' <= c <= '9' || c == '+' || c == '/'
  }

  function Letter(v: bv8): char
    requires v < 64
  {
    assert v as int < 64;
    LetterAt(v as int)
  }

  function Find(c: char): bv8
  {
    IndexOf(c) as bv8
  }

  lemma ByteRoundTrip(i: nat)
    requires i < 64
    ensures i as bv8 < 64 && (i as bv8) as int == i
  {
  }

  /** The table and its search undo each other. */
  lemma FindLetter(v: bv8)
    requires v < 64
    ensures IsBase64(Letter(v)) && Find(Letter(v)) == v
  {
    assert v as int < 64 && (v as int) as bv8 == v;
  }

  lemma LetterFind(c: char)
    requires IsBase64(c)
    ensures Find(c) < 64 && Letter(Find(c)) == c
  {
    ByteRoundTrip(IndexOf(c));
  }

  // ------------------------------------------------------- RFC 4648, section 4

  /** Three bytes as a 24-bit group. */
  function Group(a: bv8, b: bv8, c: bv8): bv24
  {
    ((a as bv24) << 16) | ((b as bv24) << 8) | (c as bv24)
  }

  /** Four 6-bit numbers as a 24-bit group. */
  function Join(p: bv8, q: bv8, r: bv8, s: bv8): bv24
  {
    ((p as bv24) << 18) | ((q as bv24) << 12) | ((r as bv24) << 6) | (s as bv24)
  }

  function Sextet(g: bv24, k: nat): (v: bv8)
    requires k < 4
    ensures v < 64
  {
    if k == 0 then ((g >> 18) & 63) as bv8
    else if k == 1 then ((g >> 12) & 63) as bv8
    else if k == 2 then ((g >> 6) & 63) as bv8
    else (g & 63) as bv8
  }

  function Octet(g: bv24, k: nat): bv8
    requires k < 3
  {
    if k == 0 then ((g >> 16) & 255) as bv8
    else if k == 1 then ((g >> 8) & 255) as bv8
    else (g & 255) as bv8
  }

  /** The first n letters of a group. */
  function Letters(g: bv24, n: nat): (s: string)
    requires n <= 4
    ensures |s| == n
  {
    [Letter(Sextet(g, 0)), Letter(Sextet(g, 1)), Letter(Sextet(g, 2)), Letter(Sextet(g, 3))][..n]
  }

  function Encode(x: seq<bv8>): string
  {
    if |x| == 0 then ""
    else if |x| == 1 then Letters(Group(x[0], 0, 0), 2) + "=="
    else if |x| == 2 then Letters(Group(x[0], x[1], 0), 3) + "="
    else Letters(Group(x[0], x[1], x[2]), 4) + Encode(x[3..])
  }

  /** The longest prefix of letters, at which base64_decode stops reading. */
  function LetterPrefix(s: string): (r: string)
    ensures |r| <= |s| && r == s[..|r|] && (forall c | c in r :: IsBase64(c))
  {
    if s == "" || !IsBase64(s[0]) then "" else [s[0]] + LetterPrefix(s[1..])
  }

  /** The first n bytes of a group. */
  function Octets(g: bv24, n: nat): (r: seq<bv8>)
    requires n <= 3
    ensures |r| == n
  {
    [Octet(g, 0), Octet(g, 1), Octet(g, 2)][..n]
  }

  function DecodeLetters(s: string): seq<bv8>
  {
    if |s| < 2 then []
    else if |s| == 2 then Octets(Join(Find(s[0]), Find(s[1]), 0, 0), 1)
    else if |s| == 3 then Octets(Join(Find(s[0]), Find(s[1]), Find(s[2]), 0), 2)
    else Octets(Join(Find(s[0]), Find(s[1]), Find(s[2]), Find(s[3])), 3) + DecodeLetters(s[4..])
  }

  function Decode(s: string): seq<bv8>
  {
    DecodeLetters(LetterPrefix(s))
  }

  // ------------------------------------------------------------- bit identities

  /** The shifts and masks of base64_encode take the sextets of the 24-bit group. */
  lemma EncodeBits(a: bv8, b: bv8, c: bv8)
    ensures (a & 0xfc) >> 2 == Sextet(Group(a, b, c), 0)
    ensures ((a & 0x03) << 4) + ((b & 0xf0) >> 4) == Sextet(Group(a, b, c), 1)
    ensures ((b & 0x0f) << 2) + ((c & 0xc0) >> 6) == Sextet(Group(a, b, c), 2)
    ensures c & 0x3f == Sextet(Group(a, b, c), 3)
  {
  }

  function FirstByte(p: bv8, q: bv8): bv8 { (p << 2) + ((q & 0x30) >> 4) }

  function SecondByte(q: bv8, r: bv8): bv8 { ((q & 0xf) << 4) + ((r & 0x3c) >> 2) }

  function ThirdByte(r: bv8, s: bv8): bv8 { ((r & 0x3) << 6) + s }

  /** The shifts and masks of base64_decode take the bytes of the joined sextets. */
  lemma DecodeBits(p: bv8, q: bv8, r: bv8, s: bv8)
    requires p < 64 && q < 64 && r < 64 && s < 64
    ensures FirstByte(p, q) == Octet(Join(p, q, r, s), 0)
    ensures SecondByte(q, r) == Octet(Join(p, q, r, s), 1)
    ensures ThirdByte(r, s) == Octet(Join(p, q, r, s), 2)
  {
  }

  lemma JoinSextets(g: bv24)
    ensures Join(Sextet(g, 0), Sextet(g, 1), Sextet(g, 2), Sextet(g, 3)) == g
  {
  }

  lemma GroupOctets(g: bv24)
    ensures Group(Octet(g, 0), Octet(g, 1), Octet(g, 2)) == g
  {
  }

  lemma OctetsOfGroup(a: bv8, b: bv8, c: bv8)
    ensures Octet(Group(a, b, c), 0) == a && Octet(Group(a, b, c), 1) == b && Octet(Group(a, b, c), 2) == c
  {
  }

  lemma SextetsOfJoin(p: bv8, q: bv8, r: bv8, s: bv8)
    requires p < 64 && q < 64 && r < 64 && s < 64
    ensures Sextet(Join(p, q, r, s), 0) == p && Sextet(Join(p, q, r, s), 1) == q
    ensures Sextet(Join(p, q, r, s), 2) == r && Sextet(Join(p, q, r, s), 3) == s
  {
  }

  /** Missing bytes are zero bits, so the sextets after the last used one are zero. */
  lemma ShortGroups(a: bv8, b: bv8)
    ensures Sextet(Group(a, 0, 0), 2) == 0 && Sextet(Group(a, 0, 0), 3) == 0
    ensures Sextet(Group(a, b, 0), 3) == 0
    ensures Sextet(Group(a, 0, 0), 1) & 15 == 0 && Sextet(Group(a, b, 0), 2) & 3 == 0
  {
  }

  /** Zero pad bits leave whole bytes. */
  lemma ShortJoins(p: bv8, q: bv8, r: bv8)
    requires p < 64 && q < 64 && r < 64
    ensures q & 15 == 0 ==> Octet(Join(p, q, 0, 0), 1) == 0 && Octet(Join(p, q, 0, 0), 2) == 0
    ensures r & 3 == 0 ==> Octet(Join(p, q, r, 0), 2) == 0
  {
  }

  // ------------------------------------------------------------------- theorems

  lemma {:induction false} EncodedLength(x: seq<bv8>)
    ensures |Encode(x)| == 4 * ((|x| + 2) / 3)
  {
    if |x| >= 3 {
      EncodedLength(x[3..]);
    }
  }

  lemma PrefixOfLetters(a: string, b: string)
    requires forall c | c in a :: IsBase64(c)
    ensures LetterPrefix(a + b) == a + LetterPrefix(b)
  {
    if a == "" {
      assert a + b == b;
    } else {
      assert (a + b)[1..] == a[1..] + b;
      PrefixOfLetters(a[1..], b);
    }
  }

  lemma LettersDecode(g: bv24, n: nat)
    requires n <= 4
    ensures forall i | 0 <= i < n :: IsBase64(Letters(g, n)[i]) && Find(Letters(g, n)[i]) == Sextet(g, i)
  {
    hide Letter, Find, IsBase64, Sextet;
    FindLetter(Sextet(g, 0));
    FindLetter(Sextet(g, 1));
    FindLetter(Sextet(g, 2));
    FindLetter(Sextet(g, 3));
  }

  lemma PadIsNoLetter()
    ensures !IsBase64('=')
  {
  }

  lemma DecodeEncodeOne(a: bv8)
    ensures Decode(Encode([a])) == [a]
  {
    hide Letter, Find, Sextet, Octet, Join, Group, Letters, IsBase64;
    var g := Group(a, 0, 0);
    LettersDecode(g, 2);
    PrefixOfLetters(Letters(g, 2), "==");
    PadIsNoLetter();
    ShortGroups(a, 0);
    JoinSextets(g);
    OctetsOfGroup(a, 0, 0);
  }

  lemma DecodeEncodeTwo(a: bv8, b: bv8)
    ensures Decode(Encode([a, b])) == [a, b]
  {
    hide Letter, Find, Sextet, Octet, Join, Group, Letters, IsBase64;
    var g := Group(a, b, 0);
    LettersDecode(g, 3);
    PrefixOfLetters(Letters(g, 3), "=");
    PadIsNoLetter();
    ShortGroups(a, b);
    JoinSextets(g);
    OctetsOfGroup(a, b, 0);
  }

  /** Decoding an encoding gives back every byte string. */
  lemma {:induction false} DecodeEncode(x: seq<bv8>)
    ensures Decode(Encode(x)) == x
  {
    hide Letter, Find, Sextet, Octet, Join, Group, Letters, IsBase64;
    if |x| == 0 {
    } else if |x| == 1 {
      DecodeEncodeOne(x[0]);
      assert x == [x[0]];
    } else if |x| == 2 {
      DecodeEncodeTwo(x[0], x[1]);
      assert x == [x[0], x[1]];
    } else {
      var g, rest := Group(x[0], x[1], x[2]), LetterPrefix(Encode(x[3..]));
      LettersDecode(g, 4);
      PrefixOfLetters(Letters(g, 4), Encode(x[3..]));
      JoinSextets(g);
      OctetsOfGroup(x[0], x[1], x[2]);
      DecodeEncode(x[3..]);
      assert (Letters(g, 4) + rest)[4..] == rest;
      assert x == [x[0], x[1], x[2]] + x[3..];
    }
  }

  /** How many of the last two characters are padding. */
  function PadCount(s: string): (p: nat)
    ensures p <= 2 && p <= |s|
  {
    if |s| >= 2 && s[|s| - 2..] == "==" then 2 else if |s| >= 1 && s[|s| - 1] == '=' then 1 else 0
  }

  /**
   * The canonical form of sections 3.2, 3.5 and 4: whole quartets of letters, with padding only at the end
   * and only zero pad bits before it.
   */
  ghost predicate IsCanonical(s: string)
  {
    var p := PadCount(s);
    && |s| % 4 == 0
    && (forall i | 0 <= i < |s| - p :: IsBase64(s[i]))
    && (p == 1 ==> Find(s[|s| - 2]) & 3 == 0)
    && (p == 2 ==> |s| >= 4 && Find(s[|s| - 3]) & 15 == 0)
  }

  lemma LettersAreNoPad(q: string)
    requires |q| == 4 && forall i | 0 <= i < 4 :: IsBase64(q[i])
    ensures PadCount(q) == 0
  {
    hide IsBase64;
    PadIsNoLetter();
    assert q[2..][1] == q[3];
  }

  lemma PadCountCons(q: string, s: string)
    requires |q| == 4 && |s| >= 2
    ensures PadCount(q + s) == PadCount(s)
  {
    assert (q + s)[|s| + 2..] == s[|s| - 2..];
  }

  lemma CanonicalCons(q: string, s: string)
    requires |q| == 4 && forall i | 0 <= i < 4 :: IsBase64(q[i])
    ensures IsCanonical(q + s) <==> IsCanonical(s)
  {
    hide IsBase64, Find, PadCount;
    var t := q + s;
    if s == "" {
      assert t == q;
      LettersAreNoPad(q);
      assert PadCount(s) == 0;
    } else if |s| >= 2 {
      PadCountCons(q, s);
      assert forall i | 0 <= i < |s| :: t[i + 4] == s[i];
      assert forall i | 4 <= i < |t| :: t[i] == s[i - 4];
    }
  }

  lemma {:induction false} EncodeIsCanonical(x: seq<bv8>)
    ensures IsCanonical(Encode(x))
  {
    hide Letter, Find, Sextet, Octet, Join, Group, Letters;
    if |x| == 0 {
    } else if |x| == 1 {
      LettersDecode(Group(x[0], 0, 0), 2);
      ShortGroups(x[0], 0);
      assert Encode(x)[2..] == "==";
    } else if |x| == 2 {
      LettersDecode(Group(x[0], x[1], 0), 3);
      ShortGroups(x[0], x[1]);
      assert Encode(x)[3] == '=';
    } else {
      LettersDecode(Group(x[0], x[1], x[2]), 4);
      EncodeIsCanonical(x[3..]);
      CanonicalCons(Letters(Group(x[0], x[1], x[2]), 4), Encode(x[3..]));
    }
  }

  /** Four letters, decoded to bytes and encoded again. */
  lemma QuartetRoundTrip(c: string)
    requires |c| == 4 && forall i | 0 <= i < 4 :: IsBase64(c[i])
    ensures var g := Join(Find(c[0]), Find(c[1]), Find(c[2]), Find(c[3]));
            Group(Octet(g, 0), Octet(g, 1), Octet(g, 2)) == g && Letters(g, 4) == c
  {
    hide Letter, Find, Sextet, Octet, Join, Group, IsBase64;
    var p, q, r, s := Find(c[0]), Find(c[1]), Find(c[2]), Find(c[3]);
    LetterFind(c[0]);
    LetterFind(c[1]);
    LetterFind(c[2]);
    LetterFind(c[3]);
    GroupOctets(Join(p, q, r, s));
    SextetsOfJoin(p, q, r, s);
  }

  /** The last quartet, with one or two characters of padding. */
  lemma PaddedQuartet(c: string)
    requires |c| == 4 && IsCanonical(c) && PadCount(c) > 0
    ensures Encode(Decode(c)) == c
  {
    hide Letter, Find, Sextet, Octet, Join, Group, IsBase64;
    PadIsNoLetter();
    var n := 4 - PadCount(c);
    var l := c[..n];
    PrefixOfLetters(l, c[n..]);
    assert c == l + c[n..];
    LetterFind(c[0]);
    LetterFind(c[1]);
    var p, q := Find(c[0]), Find(c[1]);
    if n == 2 {
      ShortJoins(p, q, 0);
      SextetsOfJoin(p, q, 0, 0);
      GroupOctets(Join(p, q, 0, 0));
    } else {
      LetterFind(c[2]);
      ShortJoins(p, q, Find(c[2]));
      SextetsOfJoin(p, q, Find(c[2]), 0);
      GroupOctets(Join(p, q, Find(c[2]), 0));
    }
  }

  lemma DecodeCons(q: string, t: string)
    requires |q| == 4 && forall c | c in q :: IsBase64(c)
    ensures Decode(q + t) == Octets(Join(Find(q[0]), Find(q[1]), Find(q[2]), Find(q[3])), 3) + Decode(t)
  {
    hide Find, Join, Octets, IsBase64, LetterPrefix;
    PrefixOfLetters(q, t);
    assert (q + LetterPrefix(t))[4..] == LetterPrefix(t);
  }

  lemma EncodeCons(b: seq<bv8>, x: seq<bv8>)
    requires |b| == 3
    ensures Encode(b + x) == Letters(Group(b[0], b[1], b[2]), 4) + Encode(x)
  {
    hide Letters, Group;
    assert (b + x)[3..] == x;
  }

  /** A canonical string that is not one padded quartet begins with a quartet of letters. */
  lemma CanonicalSplit(s: string)
    requires IsCanonical(s) && s != "" && !(|s| == 4 && PadCount(s) > 0)
    ensures |s| >= 4 && (forall c | c in s[..4] :: IsBase64(c)) && IsCanonical(s[4..])
  {
    hide IsBase64, Find;
    assert forall i | 0 <= i < 4 :: IsBase64(s[i]);
    assert s == s[..4] + s[4..];
    CanonicalCons(s[..4], s[4..]);
  }

  lemma {:induction false} EncodeDecodeCanonical(s: string)
    requires IsCanonical(s)
    ensures Encode(Decode(s)) == s
  {
    hide Letter, Find, Sextet, Octet, Join, Group, IsBase64, Letters, Encode, Decode, IsCanonical, PadCount;
    if s == "" {
      NothingRoundTrip();
    } else if |s| == 4 && PadCount(s) > 0 {
      PaddedQuartet(s);
    } else {
      CanonicalSplit(s);
      var q, t := s[..4], s[4..];
      assert s == q + t;
      EncodeDecodeCanonical(t);
      DecodeCons(q, t);
      var g := Join(Find(q[0]), Find(q[1]), Find(q[2]), Find(q[3]));
      EncodeCons(Octets(g, 3), Decode(t));
      QuartetRoundTrip(q);
    }
  }

  lemma NothingRoundTrip()
    ensures Encode(Decode("")) == ""
  {
  }

  /** Exactly the canonical strings survive being decoded and encoded again. */
  lemma EncodeDecode(s: string)
    ensures Encode(Decode(s)) == s <==> IsCanonical(s)
  {
    EncodeIsCanonical(Decode(s));
    if IsCanonical(s) {
      EncodeDecodeCanonical(s);
    }
  }

  /** The test vectors of section 10 of RFC 4648. */
  lemma TestVectors()
    ensures Encode([]) == "" && Encode([0x66]) == "Zg==" && Encode([0x66, 0x6f]) == "Zm8="
    ensures Encode([0x66, 0x6f, 0x6f]) == "Zm9v" && Encode([0x66, 0x6f, 0x6f, 0x62]) == "Zm9vYg=="
    ensures Encode([0x66, 0x6f, 0x6f, 0x62, 0x61]) == "Zm9vYmE="
    ensures Encode([0x66, 0x6f, 0x6f, 0x62, 0x61, 0x72]) == "Zm9vYmFy"
  {
  }

  // ------------------------------------------------------------------ the loops

  /** The four sextets of three bytes, by shifts and masks. */
  method SplitGroup(three: array<bv8>, four: array<bv8>)
    requires three.Length == 3 && four.Length == 4 && three != four
    modifies four
    ensures forall k | 0 <= k < 4 :: four[k] == Sextet(Group(three[0], three[1], three[2]), k)
  {
    hide Sextet, Group;
    EncodeBits(three[0], three[1], three[2]);
    four[0] := (three[0] & 0xfc) >> 2;
    four[1] := ((three[0] & 0x03) << 4) + ((three[1] & 0xf0) >> 4);
    four[2] := ((three[1] & 0x0f) << 2) + ((three[2] & 0xc0) >> 6);
    four[3] := three[2] & 0x3f;
  }

  /** Append the letters of the first n sextets. */
  method AppendLetters(ret: string, four: array<bv8>, n: nat, ghost g: bv24) returns (r: string)
    requires four.Length == 4 && n <= 4
    requires forall k | 0 <= k < 4 :: four[k] == Sextet(g, k)
    ensures r == ret + Letters(g, n)
  {
    hide Sextet, Letter;
    r := ret;
    for k := 0 to n
      invariant r == ret + Letters(g, k)
    {
      r := r + [Letter(four[k])];
    }
  }

  lemma LetterBits(l: string, t: string)
    requires |l| == 4 && forall c | c in l :: IsBase64(c)
    ensures var p, q, r, s := Find(l[0]), Find(l[1]), Find(l[2]), Find(l[3]);
            DecodeLetters(l + t) == [FirstByte(p, q), SecondByte(q, r), ThirdByte(r, s)] + DecodeLetters(t)
  {
    hide Find, Octet, Join, Letter, IsBase64, FirstByte, SecondByte, ThirdByte;
    LetterFind(l[0]);
    LetterFind(l[1]);
    LetterFind(l[2]);
    LetterFind(l[3]);
    DecodeBits(Find(l[0]), Find(l[1]), Find(l[2]), Find(l[3]));
    assert (l + t)[4..] == t;
  }

  /** The bytes taken from a short last group do not look at the missing letters. */
  lemma LastBits(l: string)
    requires 1 <= |l| <= 3 && forall c | c in l :: IsBase64(c)
    ensures |l| == 1 ==> DecodeLetters(l) == []
    ensures |l| == 2 ==> DecodeLetters(l) == [FirstByte(Find(l[0]), Find(l[1]))]
    ensures |l| == 3 ==> DecodeLetters(l) == [FirstByte(Find(l[0]), Find(l[1])),
                                              SecondByte(Find(l[1]), Find(l[2]))]
  {
    hide Find, Octet, Join, Letter, IsBase64, FirstByte, SecondByte, ThirdByte;
    LetterFind(l[0]);
    if |l| == 2 {
      LetterFind(l[1]);
      DecodeBits(Find(l[0]), Find(l[1]), 0, 0);
    } else if |l| == 3 {
      LetterFind(l[1]);
      LetterFind(l[2]);
      DecodeBits(Find(l[0]), Find(l[1]), Find(l[2]), 0);
    }
  }

  /** The last one or two bytes, with padding. */
  method EncodeLast(ret: string, three: array<bv8>, n: nat) returns (r: string)
    requires three.Length == 3 && 1 <= n <= 2
    modifies three
    ensures r == ret + Encode(old(three[..n]))
  {
    hide Letter, Sextet, Group, Letters;
    var i := n;
    ghost var last := three[..i];
    for j := i to 3
      invariant three[..i] == last && forall k | i <= k < j :: three[k] == 0
    {
      three[j] := 0;
    }
    assert last[0] == three[0] && (i == 2 ==> last[1] == three[1]);
    var four := new bv8[4];
    SplitGroup(three, four);
    r := AppendLetters(ret, four, i + 1, Group(three[0], three[1], three[2]));
    assert ret + Encode(last) == r + (if i == 1 then "==" else "=");
    while i < 3
      invariant 1 <= i <= 3
      invariant ret + Encode(last) == r + (if i == 1 then "==" else if i == 2 then "=" else "")
    {
      r := r + "=";
      i := i + 1;
    }
  }

  /** Three bytes to four letters; t is what follows them. */
  method EncodeGroup(ret: string, three: array<bv8>, ghost t: seq<bv8>) returns (r: string)
    requires three.Length == 3
    ensures ret + Encode(three[..] + t) == r + Encode(t)
  {
    hide Sextet, Group, Letters;
    var four := new bv8[4];
    SplitGroup(three, four);
    r := AppendLetters(ret, four, 4, Group(three[0], three[1], three[2]));
    assert (three[..] + t)[3..] == t;
  }

  method Base64Encode(bytes: seq<bv8>) returns (ret: string)
    ensures ret == Encode(bytes)
  {
    hide Encode;
    ret := "";
    var i, n := 0, 0;
    var three := new bv8[3];
    assert three[..0] + bytes[0..] == bytes;
    while n < |bytes|
      invariant 0 <= i < 3 && n <= |bytes|
      invariant Encode(bytes) == ret + Encode(three[..i] + bytes[n..])
    {
      ghost var done, t := three[..i], bytes[n + 1..];
      assert done + bytes[n..] == done + [bytes[n]] + t;
      three[i] := bytes[n];
      assert three[..i + 1] == done + [bytes[n]];
      i, n := i + 1, n + 1;
      if i == 3 {
        assert three[..3] == three[..];
        ret := EncodeGroup(ret, three, t);
        i := 0;
        assert three[..i] + t == t;
      }
    }
    if i != 0 {
      assert three[..i] + bytes[n..] == three[..i];
      ret := EncodeLast(ret, three, i);
    } else {
      NoBytes();
      assert three[..i] + bytes[n..] == [];
    }
  }

  lemma NoBytes()
    ensures Encode([]) == ""
  {
  }

  /** The three bytes of four sextets, by shifts and masks. */
  method JoinGroup(four: array<bv8>, three: array<bv8>)
    requires three.Length == 3 && four.Length == 4 && three != four
    modifies three
    ensures three[0] == FirstByte(four[0], four[1])
    ensures three[1] == SecondByte(four[1], four[2])
    ensures three[2] == ThirdByte(four[2], four[3])
  {
    three[0] := FirstByte(four[0], four[1]);
    three[1] := SecondByte(four[1], four[2]);
    three[2] := ThirdByte(four[2], four[3]);
  }

  method AppendBytes(ret: seq<bv8>, three: array<bv8>, n: nat) returns (r: seq<bv8>)
    requires n <= three.Length
    ensures r == ret + three[..n]
  {
    r := ret;
    for k := 0 to n
      invariant r == ret + three[..k]
    {
      r := r + [three[k]];
    }
  }

  /** Four letters to three bytes; t is what follows them. */
  method DecodeGroup(ret: seq<bv8>, letters: array<char>, ghost t: string) returns (r: seq<bv8>)
    requires letters.Length == 4 && forall k | 0 <= k < 4 :: IsBase64(letters[k])
    ensures ret + DecodeLetters(letters[..] + t) == r + DecodeLetters(t)
  {
    hide Find, DecodeLetters, IsBase64, FirstByte, SecondByte, ThirdByte;
    var four, three := new bv8[4], new bv8[3];
    for k := 0 to 4
      invariant forall j | 0 <= j < k :: four[j] == Find(letters[j])
    {
      four[k] := Find(letters[k]);
    }
    LetterBits(letters[..], t);
    JoinGroup(four, three);
    r := AppendBytes(ret, three, 3);
  }

  /** The last one to three letters. */
  method DecodeLast(ret: seq<bv8>, letters: array<char>, i: nat) returns (r: seq<bv8>)
    requires letters.Length == 4 && 1 <= i <= 3 && forall k | 0 <= k < i :: IsBase64(letters[k])
    modifies letters
    ensures r == ret + DecodeLetters(old(letters[..i]))
  {
    hide Find, DecodeLetters, IsBase64, FirstByte, SecondByte, ThirdByte;
    ghost var last := letters[..i];
    for j := i to 4
      invariant letters[..i] == last
    {
      letters[j] := '\0';
    }
    var four, three := new bv8[4], new bv8[3];
    for j := 0 to 4
      invariant forall k | 0 <= k < j :: four[k] == Find(letters[k])
      modifies four
    {
      four[j] := Find(letters[j]);
    }
    assert forall k | 0 <= k < i :: letters[..i][k] == letters[k];
    JoinGroup(four, three);
    LastBits(last);
    r := AppendBytes(ret, three, i - 1);
  }

  method Base64Decode(encoded: string) returns (ret: seq<bv8>)
    ensures ret == Decode(encoded)
  {
    hide DecodeLetters, IsBase64, LetterPrefix;
    ret := [];
    var i, n := 0, 0;
    var letters := new char[4];
    assert letters[..0] + LetterPrefix(encoded[0..]) == LetterPrefix(encoded);
    while n < |encoded| && encoded[n] != '=' && IsBase64(encoded[n])
      invariant 0 <= i < 4 && n <= |encoded|
      invariant forall k | 0 <= k < i :: IsBase64(letters[k])
      invariant Decode(encoded) == ret + DecodeLetters(letters[..i] + LetterPrefix(encoded[n..]))
    {
      NextLetter(encoded, n);
      ghost var done, t := letters[..i], LetterPrefix(encoded[n + 1..]);
      assert done + LetterPrefix(encoded[n..]) == done + [encoded[n]] + t;
      letters[i] := encoded[n];
      assert letters[..i + 1] == done + [encoded[n]];
      i, n := i + 1, n + 1;
      if i == 4 {
        assert letters[..4] == letters[..];
        ret := DecodeGroup(ret, letters, t);
        i := 0;
        assert letters[..i] + t == t;
      }
    }
    NoLetterNext(encoded, n);
    if i != 0 {
      assert letters[..i] + "" == letters[..i];
      ret := DecodeLast(ret, letters, i);
    } else {
      NoLetters();
      assert letters[..i] + "" == "";
    }
  }

  lemma NextLetter(s: string, n: nat)
    requires n < |s| && IsBase64(s[n])
    ensures LetterPrefix(s[n..]) == [s[n]] + LetterPrefix(s[n + 1..])
  {
    assert s[n..][1..] == s[n + 1..];
  }

  lemma NoLetterNext(s: string, n: nat)
    requires n <= |s| && (n < |s| ==> s[n] == '=' || !IsBase64(s[n]))
    ensures LetterPrefix(s[n..]) == ""
  {
    PadIsNoLetter();
  }

  lemma NoLetters()
    ensures DecodeLetters("") == []
  {
  }
}
