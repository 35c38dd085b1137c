/** Octet-level vocabulary of the HTTP/1.1 model: bytes, ASCII literals,
    ASCII case folding, UTF-8 well-formedness and base-10 numerals as Rust's
    `usize` reads and writes them. */
module Octets {

  newtype byte = b: int | 0 <= b < 256
  type Bytes = seq<byte>

  datatype Option<+T> = None | Some(value: T) {
    function GetOr(default: T): T {
      match this
      case Some(v) => v
      case None => default
    }
  }

  datatype Result<+T, +E> = Ok(value: T) | Err(error: E)

  /** The largest `usize` on the 64-bit targets the server is built for. */
  const USIZE_MAX: nat := 0xFFFF_FFFF_FFFF_FFFF
  /** The largest `isize`: no allocation may exceed this many bytes. */
  const ISIZE_MAX: nat := 0x7FFF_FFFF_FFFF_FFFF

  const CR: byte := 13
  const LF: byte := 10
  const SP: byte := 32
  const PLUS: byte := 43
  const COLON: byte := 58
  const CRLF: Bytes := [CR, LF]

  /** The bytes of a string literal: each character's code, taken modulo 256.
      Every literal of the model is ASCII, so this is its exact encoding. */
  function Ascii(s: string): (b: Bytes)
    ensures |b| == |s|
    ensures forall i :: 0 <= i < |s| ==> b[i] as int == s[i] as int % 256
  {
    seq(|s|, i requires 0 <= i < |s| => (s[i] as int % 256) as byte)
  }

  lemma AsciiAppend(s: string, t: string)
    ensures Ascii(s + t) == Ascii(s) + Ascii(t)
  {
  }

  // ---------------------------------------------------------------------
  // ASCII case folding

  function LowerByte(b: byte): byte {
    if 65 <= b <= 90 then b + 32 else b
  }

  /** Lower-cases the ASCII letters of `s` and leaves every other byte alone. */
  function AsciiLower(s: Bytes): (r: Bytes)
    ensures |r| == |s|
    ensures forall i :: 0 <= i < |s| ==> r[i] == LowerByte(s[i])
    ensures forall i :: 0 <= i < |r| ==> !(65 <= r[i] <= 90)
  {
    seq(|s|, i requires 0 <= i < |s| => LowerByte(s[i]))
  }

  /** A token character of section 3.2.6 of RFC 7230 (`tchar`). */
  predicate IsTokenChar(b: byte) {
    || 48 <= b <= 57 || 65 <= b <= 90 || 97 <= b <= 122
    || b == 33 || 35 <= b <= 39 || b == 42 || b == 43 || b == 45 || b == 46
    || b == 94 || b == 95 || b == 96 || b == 124 || b == 126
  }

  predicate IsToken(s: Bytes) {
    |s| > 0 && forall i :: 0 <= i < |s| ==> IsTokenChar(s[i])
  }

  /** A literal made of lower-case letters and hyphens, as the header names
      the server writes are. */
  predicate LowerHyphenated(s: string) {
    |s| > 0 && forall i :: 0 <= i < |s| ==> 'a' <= s[i] <= 'z' || s[i] == '-'
  }

  lemma LowerHyphenatedToken(s: string)
    requires LowerHyphenated(s)
    ensures IsToken(Ascii(s)) && AsciiLower(Ascii(s)) == Ascii(s)
  {
    var b := Ascii(s);
    forall i | 0 <= i < |b|
      ensures IsTokenChar(b[i]) && LowerByte(b[i]) == b[i]
    {
      assert b[i] as int == s[i] as int;
    }
  }

  // ---------------------------------------------------------------------
  // UTF-8 well-formedness (Table 3-7 of the Unicode Standard)

  predicate InRange(b: byte, lo: int, hi: int) {
    lo <= b as int <= hi
  }

  /** The length of the well-formed UTF-8 sequence that starts `s`, or 0
      when `s` does not start with one. */
  function Utf8Width(s: Bytes): (w: nat)
    requires |s| > 0
    ensures w <= 4 && w <= |s|
    ensures s[0] < 0x80 ==> w == 1
  {
    var b := s[0];
    if b < 0x80 then 1
    else if 0xC2 <= b <= 0xDF then
      if |s| >= 2 && InRange(s[1], 0x80, 0xBF) then 2 else 0
    else if 0xE0 <= b <= 0xEF then
      var lo := if b == 0xE0 then 0xA0 else 0x80;
      var hi := if b == 0xED then 0x9F else 0xBF;
      if |s| >= 3 && InRange(s[1], lo, hi) && InRange(s[2], 0x80, 0xBF) then 3 else 0
    else if 0xF0 <= b <= 0xF4 then
      var lo := if b == 0xF0 then 0x90 else 0x80;
      var hi := if b == 0xF4 then 0x8F else 0xBF;
      if |s| >= 4 && InRange(s[1], lo, hi) && InRange(s[2], 0x80, 0xBF) && InRange(s[3], 0x80, 0xBF)
      then 4 else 0
    else 0
  }

  /** `str::from_utf8` succeeds on exactly these byte strings: no string
      starting with a continuation byte, an overlong lead (`C0`, `C1`) or a
      byte above `F4` is one. */
  predicate IsUtf8(s: Bytes): (r: bool)
    ensures r && s != [] ==> !(0x80 <= s[0] <= 0xC1) && s[0] <= 0xF4
    decreases |s|
  {
    s == [] || (Utf8Width(s) > 0 && IsUtf8(s[Utf8Width(s)..]))
  }

  lemma {:induction false} AsciiIsUtf8(s: Bytes)
    requires forall i :: 0 <= i < |s| ==> s[i] < 0x80
    ensures IsUtf8(s)
  {
    if s != [] {
      AsciiIsUtf8(s[1..]);
    }
  }

  // ---------------------------------------------------------------------
  // Base-10 numerals

  predicate IsDigit(b: byte) {
    48 <= b <= 57
  }

  predicate AllDigits(s: Bytes) {
    forall i :: 0 <= i < |s| ==> IsDigit(s[i])
  }

  function DigitValue(b: byte): nat
    requires IsDigit(b)
  {
    (b - 48) as nat
  }

  function DigitByte(d: nat): (b: byte)
    requires d < 10
    ensures IsDigit(b) && DigitValue(b) == d
  {
    (48 + d) as byte
  }

  /** The number a string of decimal digits denotes, most significant first. */
  function DigitsValue(s: Bytes): nat
    requires AllDigits(s)
    decreases |s|
  {
    if s == [] then 0 else 10 * DigitsValue(s[..|s| - 1]) + DigitValue(s[|s| - 1])
  }

  /** The shortest decimal rendering of `n`, as `itoa` and `usize::to_string` write it. */
  function Decimal(n: nat): (r: Bytes)
    ensures |r| > 0 && AllDigits(r)
    decreases n
  {
    if n < 10 then [DigitByte(n)] else Decimal(n / 10) + [DigitByte(n % 10)]
  }

  lemma {:induction false} DecimalDigits(n: nat)
    ensures |Decimal(n)| > 0 && AllDigits(Decimal(n)) && DigitsValue(Decimal(n)) == n
    ensures Decimal(n)[0] != 48 || n == 0
  {
    if n >= 10 {
      DecimalDigits(n / 10);
      var s := Decimal(n);
      assert s[..|s| - 1] == Decimal(n / 10);
    }
  }

  const ZERO: byte := 48

  /** `z` zero digits. */
  function Zeros(z: nat): (r: Bytes)
    ensures |r| == z && AllDigits(r)
    ensures forall i :: 0 <= i < z ==> r[i] == ZERO
  {
    seq(z, _ => ZERO)
  }

  /** The digits `from_str_radix` reads: one leading `+` is skipped, even for
      an unsigned type. */
  function Unsigned(s: Bytes): Bytes {
    if |s| > 0 && s[0] == PLUS then s[1..] else s
  }

  /** `usize::from_str_radix(s, 10).ok()`. */
  function ParseUsize(s: Bytes): (r: Option<nat>)
    ensures r.Some? ==> r.value <= USIZE_MAX
    ensures r.Some? ==> |s| > 0 && s != [PLUS]
    ensures r.Some? ==> forall i :: 0 <= i < |s| ==> IsDigit(s[i]) || (i == 0 && s[i] == PLUS)
  {
    var digits := Unsigned(s);
    if |digits| > 0 && AllDigits(digits) && DigitsValue(digits) <= USIZE_MAX
    then Some(DigitsValue(digits))
    else None
  }

  /** Reading back a rendered number gives the number, unless it overflows `usize`. */
  lemma ParseUsizeDecimal(n: nat)
    ensures ParseUsize(Decimal(n)) == if n <= USIZE_MAX then Some(n) else None
  {
    DecimalDigits(n);
  }

  /** Leading zeros do not change the number a string of digits denotes. */
  lemma {:induction false} LeadingZerosValue(z: nat, d: Bytes)
    requires AllDigits(d)
    ensures AllDigits(Zeros(z) + d) && DigitsValue(Zeros(z) + d) == DigitsValue(d)
    decreases |d| + z
  {
    var s := Zeros(z) + d;
    if d == [] {
      assert s == Zeros(z);
      if z > 0 {
        assert s[..|s| - 1] == Zeros(z - 1) + [];
        LeadingZerosValue(z - 1, []);
      }
    } else {
      assert s[..|s| - 1] == Zeros(z) + d[..|d| - 1];
      LeadingZerosValue(z, d[..|d| - 1]);
    }
  }

  /** Every string of one or more digits, with or without one leading `+`,
      reads as the number it denotes when that fits in a `usize`, and as
      nothing otherwise. */
  lemma ParseUsizeDigits(sign: Bytes, d: Bytes)
    requires sign == [] || sign == [PLUS]
    requires |d| > 0 && AllDigits(d)
    ensures ParseUsize(sign + d) == if DigitsValue(d) <= USIZE_MAX then Some(DigitsValue(d)) else None
  {
    assert Unsigned(sign + d) == d by {
      if sign == [] {
        assert sign + d == d && IsDigit(d[0]);
      } else {
        assert (sign + d)[1..] == d;
      }
    }
  }

  /** A numeral with an optional `+` and any number of leading zeros reads
      back as its number when it fits in a `usize`. */
  lemma ParseUsizeNumeral(sign: Bytes, z: nat, n: nat)
    requires sign == [] || sign == [PLUS]
    ensures ParseUsize(sign + Zeros(z) + Decimal(n)) == if n <= USIZE_MAX then Some(n) else None
  {
    DecimalDigits(n);
    LeadingZerosValue(z, Decimal(n));
    assert sign + Zeros(z) + Decimal(n) == sign + (Zeros(z) + Decimal(n));
    ParseUsizeDigits(sign, Zeros(z) + Decimal(n));
  }

  /** An empty value and a lone `+` read as nothing. */
  lemma ParseUsizeNoDigits()
    ensures ParseUsize([]) == None && ParseUsize([PLUS]) == None
  {
    assert Unsigned([PLUS]) == [];
  }
}
