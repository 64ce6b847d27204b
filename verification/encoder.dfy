/** The vector encoder of the holographic kernel
    (`create_holographic_vector`). The encoder is dense: every one of the
    512 components is derived from the fingerprint, and no component is
    skipped.

    A component is kept as the raw unsigned 32-bit value the source computes,
    `(seed % 2000) - 1000` in `uint32_t` arithmetic, before the conversion to
    `float` and the division by 1000. */
module Encoder {
  import opened Fnv
  import opened Uint

  /** `HOLOGRAPHIC_DIMENSIONS`. */
  const Dimensions: nat := 512

  /** The golden-ratio constant mixed into each dimension's seed. */
  const Golden: bv32 := 0x9E37_79B9

  /** A `HolographicVector`: raw components, the fingerprint it came from,
      the number of active dimensions (`uint16_t`) and a validity flag
      (`uint8_t`, nonzero means valid). */
  datatype HolographicVector = HolographicVector(
    data: seq<u32>,
    hashSignature: bv32,
    activeDimensions: u16,
    valid: u8)

  /** The per-dimension seed: the fingerprint XOR `i * 0x9E3779B9`, the
      product taken modulo 2^32. */
  function Seed(hash: bv32, i: nat): bv32
    requires i < Dimensions
  {
    hash ^ ((i as bv32) * Golden)
  }

  /** Raw component `i` as the source computes it: `seed % 2000` and
      `1000` are both unsigned, so the subtraction wraps modulo 2^32
      whenever the remainder is below 1000. The result is therefore either
      a small value below 1000 or lies within 1000 below 2^32, and it is
      small exactly when the remainder is at least 1000. */
  function Component(hash: bv32, i: nat): (c: u32)
    requires i < Dimensions
    ensures c as int == (Seed(hash, i) as int % 2000 - 1000) % Modulus32
    ensures c < 1000 || c as int >= Modulus32 - 1000
    ensures c < 1000 <==> Seed(hash, i) as int % 2000 >= 1000
  {
    Sub32((Seed(hash, i) as int % 2000) as u32, 1000)
  }

  /** All 512 raw components of the vector for `hash`, in dimension order. */
  function Components(hash: bv32): (cs: seq<u32>)
    ensures |cs| == Dimensions
    ensures forall i :: 0 <= i < Dimensions ==> cs[i] == Component(hash, i)
  {
    seq(Dimensions, i requires 0 <= i < Dimensions => Component(hash, i))
  }

  /** `create_holographic_vector`: fingerprint the input, derive every
      component from the fingerprint, mark all 512 dimensions active and the
      vector valid. */
  function CreateHolographicVector(input: seq<byte>): (v: HolographicVector)
    ensures v.hashSignature == HashData(input)
    ensures v.activeDimensions == 512
    ensures v.valid == 1
    ensures |v.data| == Dimensions
    ensures forall i :: 0 <= i < Dimensions ==> v.data[i] == Component(HashData(input), i)
  {
    var hash := HashData(input);
    HolographicVector(Components(hash), hash, 512, 1)
  }

  /** A vector is fully determined by its fingerprint: two inputs with the
      same fingerprint encode to identical vectors. */
  lemma DeterminedByFingerprint(a: seq<byte>, b: seq<byte>)
    ensures CreateHolographicVector(a) == CreateHolographicVector(b) <==> HashData(a) == HashData(b)
  {
    var va := CreateHolographicVector(a);
    var vb := CreateHolographicVector(b);
    if HashData(a) == HashData(b) {
      assert va.data == vb.data;
    }
  }

  // ---------------------------------------------------------------------
  // The wrapped subtraction, as written and as evidently intended.

  /** The integer the source hands to its `(float)` conversion for raw
      component `c`: the unsigned value of the wrapped subtraction. The
      stored float is this value divided by 1000. */
  function AsWrittenMilli(c: u32): (m: int)
    ensures 0 <= m < Modulus32
  {
    c as int
  }

  /** The two's-complement reading of a raw component. */
  function Signed(c: u32): int
  {
    if c < 0x8000_0000 then c as int else c as int - Modulus32
  }

  /** The component in thousandths as evidently intended: the seed's
      remainder shifted into [-1000, 1000), so that after the division by
      1000 every component lies in [-1.0, 1.0). */
  function IntendedMilli(hash: bv32, i: nat): (m: int)
    requires i < Dimensions
    ensures -1000 <= m < 1000
  {
    Seed(hash, i) as int % 2000 - 1000
  }

  /** The raw value the model stores holds the intended value: reading it as
      two's complement instead of unsigned yields exactly `IntendedMilli`. */
  lemma IntendedIsSignedReading(hash: bv32, i: nat)
    requires i < Dimensions
    ensures Signed(Component(hash, i)) == IntendedMilli(hash, i)
  {
  }

  /** As written, every component whose seed remainder is below 1000 is
      converted as a number of at least 4294966296, far outside the intended
      range [-1000, 1000). */
  lemma WrappedComponentOutOfRange(hash: bv32, i: nat)
    requires i < Dimensions
    requires Seed(hash, i) as int % 2000 < 1000
    ensures AsWrittenMilli(Component(hash, i)) >= Modulus32 - 1000
    ensures AsWrittenMilli(Component(hash, i)) != IntendedMilli(hash, i)
  {
  }

  /** The concrete case: component 0 of the vector for the empty input has
      seed 0x811C9DC5, whose remainder modulo 2000 is 261. As written it is
      converted as 4294966557 (about 4294966.557 after the division); the
      intended value is -739 (-0.739). */
  lemma EmptyInputComponentZero()
    ensures CreateHolographicVector([]).data[0] == 0xFFFF_FD1D
    ensures AsWrittenMilli(CreateHolographicVector([]).data[0]) == 4294966557
    ensures IntendedMilli(OffsetBasis, 0) == -739
  {
    assert Seed(OffsetBasis, 0) == 0x811C_9DC5;
  }
}
