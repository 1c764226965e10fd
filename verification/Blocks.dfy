/** Folding a compression function over the 64-byte blocks of a message. */
module Blocks {

  /** The chaining value after every whole block of data; a partial last block is not looked at. */
  function Fold<S>(f: (S, seq<bv8>) -> S, h: S, data: seq<bv8>): S
  {
    if |data| < 64 then h else Fold(f, f(h, data[..64]), data[64..])
  }

  /** The bytes after the last whole block. */
  function Tail(data: seq<bv8>): (r: seq<bv8>)
    ensures |r| < 64
  {
    if |data| < 64 then data else Tail(data[64..])
  }

  lemma {:induction false} TailLength(data: seq<bv8>)
    ensures |Tail(data)| == |data| % 64
  {
    if |data| >= 64 {
      TailLength(data[64..]);
    }
  }

  /** Completing the pending tail of m to one block compresses that block. */
  lemma {:induction false} FoldComplete<S>(f: (S, seq<bv8>) -> S, h: S, m: seq<bv8>, d: seq<bv8>)
    requires |Tail(m)| + |d| == 64
    ensures Fold(f, h, m + d) == f(Fold(f, h, m), Tail(m) + d)
    ensures Tail(m + d) == []
  {
    if |m| < 64 {
      assert (m + d)[..64] == m + d && (m + d)[64..] == [];
      assert Fold(f, f(h, m + d), []) == f(h, m + d);
    } else {
      assert (m + d)[..64] == m[..64] && (m + d)[64..] == m[64..] + d;
      FoldComplete(f, f(h, m[..64]), m[64..], d);
    }
  }

  /** Bytes that do not complete a block only lengthen the tail. */
  lemma {:induction false} FoldLengthen<S>(f: (S, seq<bv8>) -> S, h: S, m: seq<bv8>, d: seq<bv8>)
    requires |Tail(m)| + |d| < 64
    ensures Fold(f, h, m + d) == Fold(f, h, m)
    ensures Tail(m + d) == Tail(m) + d
  {
    if |m| >= 64 {
      assert (m + d)[..64] == m[..64] && (m + d)[64..] == m[64..] + d;
      FoldLengthen(f, f(h, m[..64]), m[64..], d);
    }
  }

  /** The number of zero bytes between the 0x80 byte and the length. */
  function ZeroCount(n: nat): (k: nat)
    ensures k < 64 && (n + k + 9) % 64 == 0
  {
    (55 - n) % 64
  }

  function Zeros(n: nat): (r: seq<bv8>)
    ensures |r| == n && forall i | 0 <= i < n :: r[i] == 0
  {
    seq(n, _ => 0)
  }

  /** The padding before the length field, the same in section 3.1 of RFC 1321 and section 4 of FIPS PUB 180-1. */
  function PadBits(n: nat): (r: seq<bv8>)
    ensures (n + |r| + 8) % 64 == 0 && 1 <= |r| <= 64
  {
    [0x80] + Zeros(ZeroCount(n))
  }

  /** Concatenation of a sequence of pieces. */
  function Flatten<T>(parts: seq<seq<T>>): seq<T>
  {
    if parts == [] then [] else Flatten(parts[..|parts| - 1]) + parts[|parts| - 1]
  }

  lemma FlattenNext<T>(parts: seq<seq<T>>, i: nat)
    requires i < |parts|
    ensures Flatten(parts[..i + 1]) == Flatten(parts[..i]) + parts[i]
  {
    assert parts[..i + 1][..i] == parts[..i];
  }

  lemma {:induction false} FlattenPrefix<T>(parts: seq<seq<T>>, i: nat)
    requires i <= |parts|
    ensures Flatten(parts[..i]) <= Flatten(parts)
  {
    if i == |parts| {
      assert parts[..i] == parts;
    } else {
      var front := parts[..|parts| - 1];
      assert front[..i] == parts[..i];
      FlattenPrefix(front, i);
    }
  }
}
