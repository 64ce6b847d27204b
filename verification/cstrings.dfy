/** How the kernel's inputs look as bytes in memory: string literals are
    ASCII and NUL-terminated, and an `int` is stored in four bytes, least
    significant first (the x86 target is little-endian). */
module CStrings {
  import opened Fnv
  import opened Uint

  /** Every character is 7-bit ASCII, as in the kernel's literals. */
  predicate IsAscii(s: string)
  {
    forall i :: 0 <= i < |s| ==> s[i] as int < 0x80
  }

  /** The bytes of an ASCII string, one per character. */
  function Bytes(s: string): (b: seq<byte>)
    requires IsAscii(s)
    ensures |b| == |s|
  {
    seq(|s|, i requires 0 <= i < |s| => (s[i] as int) as byte)
  }

  /** A string literal as it lies in memory: its bytes and a NUL. */
  function CBytes(s: string): (b: seq<byte>)
    requires IsAscii(s)
    ensures |b| == |s| + 1 && b[|s|] == 0
    ensures b[..|s|] == Bytes(s)
  {
    Bytes(s) + [0]
  }

  /** The bytes `print`'s `while (*str)` walk reaches: everything before
      the first NUL, or the whole span if it holds none. */
  function UntilNul(b: seq<byte>): (r: seq<byte>)
    ensures |r| <= |b| && r == b[..|r|]
    ensures forall i :: 0 <= i < |r| ==> r[i] != 0
    ensures |r| < |b| ==> b[|r|] == 0
  {
    if |b| == 0 || b[0] == 0 then []
    else [b[0]] + UntilNul(b[1..])
  }

  /** A literal with no embedded NUL is read back up to its terminator:
      the walk over its bytes in memory yields exactly its characters'
      bytes. */
  lemma UntilNulOfLiteral(s: string)
    requires IsAscii(s)
    requires forall i :: 0 <= i < |s| ==> s[i] != '\0'
    ensures UntilNul(CBytes(s)) == Bytes(s)
  {
  }

  /** Byte values as the hash reads them. */
  function ToBytes(b: seq<u8>): (r: seq<byte>)
    ensures |r| == |b|
  {
    seq(|b|, i requires 0 <= i < |b| => b[i] as int as byte)
  }

  /** The four bytes of a 32-bit value in memory, least significant first. */
  function LittleEndian32(x: u32): (b: seq<u8>)
    ensures |b| == 4
  {
    var q1 := x as int / 0x100;
    var q2 := q1 / 0x100;
    var q3 := q2 / 0x100;
    [(x as int % 0x100) as u8, (q1 % 0x100) as u8, (q2 % 0x100) as u8, q3 as u8]
  }

  /** Reading four little-endian bytes back as a 32-bit value. */
  function FromLittleEndian32(b: seq<u8>): (x: u32)
    requires |b| == 4
  {
    (b[0] as int + 0x100 * (b[1] as int + 0x100 * (b[2] as int + 0x100 * b[3] as int))) as u32
  }

  /** Storing a value and reading it back gives the value. */
  lemma LittleEndianRoundTrip(x: u32)
    ensures FromLittleEndian32(LittleEndian32(x)) == x
  {
  }

  /** A small value occupies only the first byte. */
  lemma LittleEndianSmall(x: u32)
    requires x < 0x100
    ensures LittleEndian32(x) == [x as int as u8, 0, 0, 0]
  {
  }
}
