/** The hexadecimal serialiser of the holographic kernel (`print_hex`):
    a 32-bit value becomes "0x" followed by eight upper-case hex digits,
    most significant first. The text is returned instead of being written
    to the screen.

    The source peels digits off with `value & 0xF` and `value >>= 4`; on
    the unsigned value these are `% 16` and `/ 16`, which is how they are
    written here. */
module Hex {
  import opened Options
  import opened Uint

  /** The digit alphabet of `print_hex`. */
  const HexChars: string := "0123456789ABCDEF"

  /** 16^n. */
  function Pow16(n: nat): (p: nat)
    ensures p > 0
  {
    if n == 0 then 1 else 16 * Pow16(n - 1)
  }

  // ---------------------------------------------------------------------
  // Integer division facts (Dafny's `/` and `%` on naturals).

  /** Dividing by 16 and then by `p` is dividing by `16 * p`, and the
      remainder modulo `16 * p` is assembled from the two remainders. */
  lemma DivMod16(x: nat, p: nat)
    requires p > 0
    ensures x / 16 / p == x / (16 * p)
    ensures (x / 16) % p * 16 + x % 16 == x % (16 * p)
  {
    var q := x / 16;
    var r := x % 16;
    var a := q / p;
    var b := q % p;
    assert q == p * a + b;
    assert x == (16 * p) * a + (16 * b + r);
    DivModUnique(x, 16 * p, a, 16 * b + r);
  }

  /** Dividing by `p` and then by 16 is dividing by `16 * p`. */
  lemma DivThenDiv16(x: nat, p: nat)
    requires p > 0
    ensures x / p / 16 == x / (16 * p)
  {
    var q := x / p;
    var r := x % p;
    var a := q / 16;
    var b := q % 16;
    assert q == 16 * a + b;
    assert x == p * q + r;
    MulDistributes(p, a, b);
    MulAtMost(p, b, 15);
    DivModUnique(x, 16 * p, a, p * b + r);
  }

  lemma MulDistributes(p: int, a: int, b: int)
    ensures p * (16 * a + b) == (16 * p) * a + p * b
  {
  }

  lemma MulAtMost(p: nat, b: nat, c: nat)
    requires b <= c
    ensures p * b <= p * c
  {
    assert p * c - p * b == p * (c - b);
  }

  // ---------------------------------------------------------------------
  // Printing.

  /** Nibble `k` of `x`, counting from the least significant: the low
      nibble after `k` shifts right by four, as the source's loop shifts
      `value`. */
  function Nibble(x: nat, k: nat): (n: nat)
    ensures n < 16
    decreases k
  {
    if k == 0 then x % 16 else Nibble(x / 16, k - 1)
  }

  /** The same nibble in one step: `(x >> 4*k) & 0xF`. */
  lemma {:induction false} NibbleIsShift(x: nat, k: nat)
    ensures Nibble(x, k) == (x / Pow16(k)) % 16
    decreases k
  {
    if k > 0 {
      NibbleIsShift(x / 16, k - 1);
      DivMod16(x, Pow16(k - 1));
    }
  }

  /** The last `n` hex digits of `x`, built the way the source's buffer loop
      builds them: the final character is the low nibble, the ones before it
      come from `x >> 4`. */
  function Digits(x: nat, n: nat): (r: string)
    ensures |r| == n
    decreases n
  {
    if n == 0 then [] else Digits(x / 16, n - 1) + [HexChars[x % 16]]
  }

  /** Character `j` of the `n` digits of `x` is nibble `n - 1 - j`: the
      most significant nibble comes first. */
  lemma {:induction false} DigitsChars(x: nat, n: nat)
    ensures forall j :: 0 <= j < n ==> Digits(x, n)[j] == HexChars[Nibble(x, n - 1 - j)]
    decreases n
  {
    if n > 0 {
      DigitsChars(x / 16, n - 1);
    }
  }

  /** `print_hex`: "0x" then the eight digits of `v`, most significant
      first: digit `d` (character `2 + d`) is nibble `7 - d` of `v`, that is
      `(v >> 4*(7-d)) & 0xF`, taken from "0123456789ABCDEF". */
  function PrintHex(v: bv32): (r: string)
    ensures |r| == 10
    ensures r[0] == '0' && r[1] == 'x'
    ensures forall j :: 2 <= j < 10 ==> r[j] == HexChars[Nibble(v as int, 9 - j)]
  {
    var digits := Digits(v as int, 8);
    DigitsChars(v as int, 8);
    assert forall j :: 2 <= j < 10 ==> ("0x" + digits)[j] == digits[j - 2];
    "0x" + digits
  }

  /** `print_hex`, step by step: fill the buffer, then print "0x" and
      the buffer. The text is the one `PrintHex` describes. */
  method PrintHexLoop(v: bv32) returns (r: string)
    ensures r == PrintHex(v)
  {
    var buffer := FillBuffer(v as int);
    BufferIsPrintHex(v, buffer);
    r := "0x" + buffer;
  }

  /** The buffer loop of `print_hex`: positions 7 down to 0 get the low
      nibble of `value`, which is shifted right by four after each. Position
      `j` ends up holding nibble `7 - j`. */
  method FillBuffer(x: nat) returns (buffer: string)
    ensures |buffer| == 8
    ensures forall j :: 0 <= j < 8 ==> buffer[j] == HexChars[Nibble(x, 7 - j)]
  {
    var value := x;
    buffer := "00000000";
    var i := 7;
    DivByOne(x);
    while i >= 0
      invariant -1 <= i <= 7
      invariant |buffer| == 8
      invariant value == x / Pow16(7 - i)
      invariant forall j :: i < j < 8 ==> buffer[j] == HexChars[Nibble(x, 7 - j)]
    {
      var next := buffer[i := HexChars[value % 16]];
      BufferStep(x, i, value, buffer, next);
      buffer := next;
      value := value / 16;
      i := i - 1;
    }
  }

  lemma DivByOne(x: nat)
    ensures x / Pow16(0) == x
  {
  }

  /** One pass of the buffer loop keeps its invariant. */
  lemma BufferStep(x: nat, i: int, value: nat, buffer: string, next: string)
    requires 0 <= i <= 7 && |buffer| == 8
    requires next == buffer[i := HexChars[value % 16]]
    requires value == x / Pow16(7 - i)
    requires forall j :: i < j < 8 ==> buffer[j] == HexChars[Nibble(x, 7 - j)]
    ensures value / 16 == x / Pow16(7 - (i - 1))
    ensures forall j :: i - 1 < j < 8 ==> next[j] == HexChars[Nibble(x, 7 - j)]
  {
    NibbleIsShift(x, 7 - i);
    DivThenDiv16(x, Pow16(7 - i));
    assert Pow16(7 - (i - 1)) == 16 * Pow16(7 - i);
  }

  /** A filled buffer, behind "0x", is the text `PrintHex` describes. */
  lemma BufferIsPrintHex(v: bv32, buffer: string)
    requires |buffer| == 8
    requires forall j :: 0 <= j < 8 ==> buffer[j] == HexChars[Nibble(v as int, 7 - j)]
    ensures "0x" + buffer == PrintHex(v)
  {
    var p := PrintHex(v);
    assert forall j :: 2 <= j < 10 ==> ("0x" + buffer)[j] == p[j];
  }

  // ---------------------------------------------------------------------
  // Reading the text back.

  /** The value of one upper-case hex digit, if `c` is one. */
  function DigitValue(c: char): (d: Option<nat>)
    ensures d.Some? ==> d.value < 16 && HexChars[d.value] == c
  {
    if '0' <= c <= '9' then Some(c as int - '0' as int)
    else if 'A' <= c <= 'F' then Some(c as int - 'A' as int + 10)
    else None
  }

  /** Every digit of the alphabet reads back as its own position. */
  lemma DigitValueOfHexChar(k: nat)
    requires k < 16
    ensures DigitValue(HexChars[k]) == Some(k)
  {
    if k < 10 {
      assert HexChars[k] as int == '0' as int + k;
    } else {
      assert HexChars[k] as int == 'A' as int + k - 10;
    }
  }

  /** Parse a run of hex digits, most significant first; `None` if a
      character is not an upper-case hex digit. */
  function ParseDigits(s: string): Option<nat>
    decreases |s|
  {
    if |s| == 0 then Some(0)
    else
      match ParseDigits(s[..|s| - 1])
      case None => None
      case Some(acc) =>
        match DigitValue(s[|s| - 1])
        case None => None
        case Some(d) => Some(acc * 16 + d)
  }

  /** Parse the exact format `print_hex` emits. */
  function ParseHex(s: string): Option<nat>
  {
    if |s| == 10 && s[0] == '0' && s[1] == 'x' then ParseDigits(s[2..]) else None
  }

  /** Parsing `n` digits of `x` recovers `x` modulo 16^n. */
  lemma {:induction false} ParseDigitsOf(x: nat, n: nat)
    ensures ParseDigits(Digits(x, n)) == Some(x % Pow16(n))
    decreases n
  {
    if n > 0 {
      var s := Digits(x, n);
      assert s[..n - 1] == Digits(x / 16, n - 1);
      ParseDigitsOf(x / 16, n - 1);
      DigitValueOfHexChar(x % 16);
      DivMod16(x, Pow16(n - 1));
    }
  }

  /** Eight digits hold any 32-bit value exactly. */
  lemma EightDigitsSuffice(x: nat)
    requires x < 0x1_0000_0000
    ensures ParseDigits(Digits(x, 8)) == Some(x)
  {
    ParseDigitsOf(x, 8);
    Pow16Eight();
    DivModUnique(x, Pow16(8), 0, x);
  }

  lemma Pow16Eight()
    ensures Pow16(8) == 0x1_0000_0000
  {
  }

  /** `ParseHex` strips the prefix and parses the eight digits. */
  lemma ParseHexOfDigits(s: string, y: nat)
    requires |s| == 10 && s[0] == '0' && s[1] == 'x'
    requires ParseDigits(s[2..]) == Some(y)
    ensures ParseHex(s) == Some(y)
  {
  }

  /** Round trip: the text `print_hex` produces parses back to the value. */
  lemma ParsePrintHex(v: bv32)
    ensures ParseHex(PrintHex(v)) == Some(v as int)
  {
    var x := v as int;
    var r := PrintHex(v);
    assert r[2..] == Digits(x, 8);
    EightDigitsSuffice(x);
    ParseHexOfDigits(r, x);
  }

  /** Different values are always printed differently. */
  lemma PrintHexInjective(a: bv32, b: bv32)
    ensures PrintHex(a) == PrintHex(b) <==> a == b
  {
    ParsePrintHex(a);
    ParsePrintHex(b);
    if PrintHex(a) == PrintHex(b) {
      assert a as int == b as int;
      assert (a as int) as bv32 == a && (b as int) as bv32 == b;
    }
  }
}
