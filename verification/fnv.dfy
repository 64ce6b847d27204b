/** The fingerprint hasher of the holographic kernel: 32-bit FNV-1a over a
    byte span (`hash_data`). Every operation is unsigned 32-bit arithmetic,
    so `bv32` multiplication gives the wrap-around modulo 2^32 for free. */
module Fnv {

  type byte = bv8

  /** FNV-1a offset basis (2166136261). */
  const OffsetBasis: bv32 := 0x811C_9DC5

  /** FNV-1a 32-bit prime (16777619). */
  const Prime: bv32 := 0x0100_0193

  /** One round: XOR the byte into the accumulator, then multiply. */
  function Step(hash: bv32, b: byte): bv32
  {
    (hash ^ (b as bv32)) * Prime
  }

  /** The left fold of `Step` over `data`, starting from `hash`: the first
      byte is mixed in first, exactly as the loop over `data[i]` does. */
  function Fold(hash: bv32, data: seq<byte>): bv32
    decreases |data|
  {
    if |data| == 0 then hash
    else Step(Fold(hash, data[..|data| - 1]), data[|data| - 1])
  }

  /** `hash_data`: the fingerprint of a byte span. */
  function HashData(data: seq<byte>): (h: bv32)
    ensures |data| == 0 ==> h == OffsetBasis
    ensures |data| > 0 ==> h == Step(HashData(data[..|data| - 1]), data[|data| - 1])
  {
    Fold(OffsetBasis, data)
  }

  /** The loop of `hash_data`: mix the bytes in one at a time, first to
      last. It computes the fingerprint. */
  method HashDataLoop(data: seq<byte>) returns (hash: bv32)
    ensures hash == HashData(data)
  {
    hash := OffsetBasis;
    var i := 0;
    while i < |data|
      invariant 0 <= i <= |data|
      invariant hash == HashData(data[..i])
    {
      assert data[..i + 1][..i] == data[..i];
      hash := Step(hash, data[i]);
      i := i + 1;
    }
    assert data[..|data|] == data;
  }

  /** Folding over `a + b` is folding over `a`, then continuing over `b`. */
  lemma {:induction false} FoldAppend(hash: bv32, a: seq<byte>, b: seq<byte>)
    ensures Fold(hash, a + b) == Fold(Fold(hash, a), b)
    decreases |b|
  {
    if |b| == 0 {
      assert a + b == a;
    } else {
      var last := |b| - 1;
      assert (a + b)[..|a + b| - 1] == a + b[..last];
      assert (a + b)[|a + b| - 1] == b[last];
      FoldAppend(hash, a, b[..last]);
    }
  }

  /** The hash of a concatenation continues the FNV-1a state of the prefix,
      so a fingerprint can be computed incrementally. */
  lemma HashAppend(a: seq<byte>, b: seq<byte>)
    ensures HashData(a + b) == Fold(HashData(a), b)
  {
    FoldAppend(OffsetBasis, a, b);
  }

  /** Two spans that share a prefix have equal fingerprints exactly when the
      FNV-1a states reached after their differing suffixes agree. */
  lemma CommonPrefix(p: seq<byte>, x: seq<byte>, y: seq<byte>)
    ensures HashData(p + x) == HashData(p + y) <==> Fold(HashData(p), x) == Fold(HashData(p), y)
  {
    HashAppend(p, x);
    HashAppend(p, y);
  }
}
