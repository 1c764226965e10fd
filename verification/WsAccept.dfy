/** The accept key of the websocket handshake: WebsocketCodec.cc over the SHA-1 and Base64 models. */
module WsAccept {
  import opened Words
  import Sha1
  import Base64

  const MAGIC := "258EAFA5-E914-47DA-95CA-C5AB0DC85B11"

  function Bytes(s: string): (b: seq<bv8>)
    ensures |b| == |s|
  {
    seq(|s|, i requires 0 <= i < |s| => ByteOf(s[i]))
  }

  function ByteOf(c: char): bv8
  {
    ToByte(c as int % 256)
  }

  /** The low byte of each character. */
  lemma BytesAre(s: string, i: nat)
    requires i < |s|
    ensures Value(Bytes(s)[i]) == s[i] as int % 256
  {
    LowByte(s[i]);
  }

  lemma LowByte(c: char)
    ensures Value(ByteOf(c)) == c as int % 256
  {
    hide ToByte, Value;
    ByteValue(c as int % 256);
  }

  /** What of the key the length parameter of SHA1::Input, 32 bits wide, lets through. */
  function Hashed(key: string): (b: seq<bv8>)
    ensures |b| < 0x1_0000_0000
  {
    Bytes(key + MAGIC)[..|key + MAGIC| % 0x1_0000_0000]
  }

  /** The 160 bits of section 8 of FIPS PUB 180-1 as bytes, high-order byte of each word first. */
  function Serialised(words: seq<bv32>): (b: seq<bv8>)
    ensures |b| == 4 * |words|
  {
    seq(4 * |words|, i requires 0 <= i < 4 * |words| => RegisterByte(words[i / 4], 3 - i % 4))
  }

  /** The accept string of section 4.2.2 of RFC 6455. */
  function Accept(key: string): string
  {
    Base64.Encode(Serialised(Sha1.DigestWords(Sha1.Digest(Hashed(key)))))
  }

  /** 28 characters, from which the 20 bytes of the digest come back. */
  lemma AcceptDecodes(key: string)
    ensures |Accept(key)| == 28
    ensures Base64.Decode(Accept(key)) == Serialised(Sha1.DigestWords(Sha1.Digest(Hashed(key))))
  {
    hide Serialised, Sha1.DigestWords, Sha1.Digest, Hashed, Base64.Encode, Base64.Decode;
    var digest := Serialised(Sha1.DigestWords(Sha1.Digest(Hashed(key))));
    Base64.EncodedLength(digest);
    Base64.DecodeEncode(digest);
  }

  /** A key of ordinary length is hashed whole. */
  lemma HashedWhole(key: string)
    requires |key + MAGIC| < 0x1_0000_0000
    ensures Hashed(key) == Bytes(key) + Bytes(MAGIC)
  {
    hide ByteOf;
    BytesOfConcat(key, MAGIC);
    var all := Bytes(key + MAGIC);
    assert |key + MAGIC| % 0x1_0000_0000 == |all| && all[..|all|] == all;
  }

  lemma BytesOfConcat(a: string, b: string)
    ensures Bytes(a + b) == Bytes(a) + Bytes(b)
  {
    hide ByteOf;
  }

  /** The five words as a little-endian machine holds them in the digest array. */
  method View(words: array<bv32>) returns (digest: array<bv8>)
    requires words.Length == 5
    ensures fresh(digest) && digest.Length == 20
    ensures forall i | 0 <= i < 20 :: digest[i] == RegisterByte(words[i / 4], i % 4)
  {
    hide RegisterByte;
    digest := new bv8[20];
    for i := 0 to 20
      invariant forall j | 0 <= j < i :: digest[j] == RegisterByte(words[j / 4], j % 4)
    {
      digest[i] := RegisterByte(words[i / 4], i % 4);
    }
  }

  /** The place in its word counted from the other end. */
  function Mirror(j: nat): (k: nat)
    ensures j < 20 ==> k < 20
  {
    4 * (j / 4) + (3 - j % 4)
  }

  lemma MirrorInWord(i: nat)
    requires i % 4 == 0
    ensures Mirror(i) == i + 3 && Mirror(i + 1) == i + 2 && Mirror(i + 2) == i + 1 && Mirror(i + 3) == i
  {
  }

  /** The loop that reverses the bytes of each word. */
  method ToNetworkOrder(digest: array<bv8>)
    requires digest.Length == 20
    modifies digest
    ensures forall j | 0 <= j < 20 :: digest[j] == old(digest[Mirror(j)])
  {
    hide Mirror;
    var i := 0;
    while i < 20
      invariant 0 <= i <= 20 && i % 4 == 0
      invariant forall j | 0 <= j < i :: digest[j] == old(digest[Mirror(j)])
      invariant forall j | i <= j < 20 :: digest[j] == old(digest[j])
    {
      MirrorInWord(i);
      digest[i], digest[i + 3] := digest[i + 3], digest[i];
      digest[i + 1], digest[i + 2] := digest[i + 2], digest[i + 1];
      i := i + 4;
    }
  }

  lemma SerialisedAt(words: seq<bv32>, digest: seq<bv8>)
    requires |words| == 5 && |digest| == 20
    requires forall j | 0 <= j < 20 :: digest[j] == RegisterByte(words[Mirror(j) / 4], Mirror(j) % 4)
    ensures digest == Serialised(words)
  {
    hide RegisterByte;
    assert forall j: nat | j < 20 :: Mirror(j) / 4 == j / 4 && Mirror(j) % 4 == 3 - j % 4;
  }

  lemma HashedIs(key: string)
    ensures var all := Bytes(key + "258EAFA5-E914-47DA-95CA-C5AB0DC85B11");
            Hashed(key) == all[..|all| % 0x1_0000_0000] && |all| == |key| + 36
  {
    hide ByteOf;
  }

  /** Key and magic through the hash object: it is new and the input short enough, so Result succeeds. */
  method HashKey(key: string) returns (words: array<bv32>)
    ensures words.Length == 5
    ensures words[..] == Sha1.DigestWords(Sha1.Digest(Hashed(key)))
  {
    hide *;
    var sha := new Sha1.Sha1();
    var all := Bytes(key + "258EAFA5-E914-47DA-95CA-C5AB0DC85B11");
    var data := all[..|all| % 0x1_0000_0000];
    assert data == Hashed(key) by { HashedIs(key); }
    sha.Input(data);
    assert sha.message == data;
    words := new bv32[5];
    var ok := sha.Result(words);
  }

  method GetSecWebSocketAccept(key: string) returns (accept: string)
    ensures accept == Accept(key)
  {
    hide RegisterByte, Sha1.Digest, Sha1.DigestWords, Serialised, Hashed, Mirror, Base64.Encode;
    var words := HashKey(key);
    var digest := View(words);
    ToNetworkOrder(digest);
    SerialisedAt(words[..], digest[..]);
    accept := Base64.Base64Encode(digest[..]);
  }
}
