/** Hexadecimal and UTF-8, each with the decoder that inverts it. */
module Encodings {
  import opened Bytes
  import opened Wrappers

  // ---------------------------------------------------------------------------
  // Lowercase hexadecimal
  // ---------------------------------------------------------------------------

  function HexDigit(n: nat): (c: char)
    requires n < 16
    ensures '0' <= c <= '9' || 'a' <= c <= 'f'
  {
    if n < 10 then (48 + n) as char else (87 + n) as char
  }

  function HexValue(c: char): (v: Option<nat>)
    ensures v.Some? ==> v.value < 16
  {
    if '0' <= c <= '9' then Some(c as int - 48)
    else if 'a' <= c <= 'f' then Some(c as int - 87)
    else None
  }

  lemma {:induction false} HexDigitValue(n: nat)
    requires n < 16
    ensures HexValue(HexDigit(n)) == Some(n)
  {
  }

  /** Python's `bytes.hex`. */
  function Hex(b: Bytes): (s: string)
    ensures |s| == 2 * |b|
  {
    if b == [] then "" else [HexDigit(b[0] / 16), HexDigit(b[0] % 16)] + Hex(b[1..])
  }

  /** The lowercase digit of a number below sixteen. */
  predicate IsNibble(c: char, n: int) {
    if n < 10 then c as int == 48 + n else n < 16 && c as int == 87 + n
  }

  /** Two digits a byte, the high one first. */
  lemma {:induction false} HexAt(b: Bytes, i: nat)
    requires i < |b|
    ensures |Hex(b)| == 2 * |b|
    ensures IsNibble(Hex(b)[2 * i], b[i] / 16) && IsNibble(Hex(b)[2 * i + 1], b[i] % 16)
    decreases i
  {
    if i > 0 { HexAt(b[1..], i - 1); }
  }

  function UnHex(s: string): Option<Bytes> {
    if s == "" then Some([])
    else if |s| == 1 then None
    else
      match (HexValue(s[0]), HexValue(s[1]), UnHex(s[2..]))
      case (Some(hi), Some(lo), Some(rest)) => Some([16 * hi + lo] + rest)
      case _ => None
  }

  lemma {:induction false} HexRoundTrip(b: Bytes)
    ensures UnHex(Hex(b)) == Some(b)
  {
    if b != [] {
      var s := Hex(b);
      HexDigitValue(b[0] / 16);
      HexDigitValue(b[0] % 16);
      assert s[2..] == Hex(b[1..]);
      HexRoundTrip(b[1..]);
      assert [b[0]] + b[1..] == b;
    }
  }

  // ---------------------------------------------------------------------------
  // UTF-8 (section 3 of RFC 3629)
  // ---------------------------------------------------------------------------

  function Utf8Char(c: char): (b: Bytes)
    ensures 1 <= |b| <= 4
  {
    var n := c as int;
    if n < 0x80 then [n]
    else if n < 0x800 then [0xC0 + n / 64, 0x80 + n % 64]
    else if n < 0x10000 then [0xE0 + n / 4096, 0x80 + n / 64 % 64, 0x80 + n % 64]
    else [0xF0 + n / 262144, 0x80 + n / 4096 % 64, 0x80 + n / 64 % 64, 0x80 + n % 64]
  }

  function Utf8(s: string): Bytes {
    if s == "" then [] else Utf8Char(s[0]) + Utf8(s[1..])
  }

  /** The number with the given base-64 digits. */
  function Base64(a: int, b: int, c: int, d: int): int {
    ((a * 64 + b) * 64 + c) * 64 + d
  }

  /** Code point and encoded length announced by the first bytes. */
  function FirstCodePoint(b: Bytes): (r: Option<(int, nat)>)
    requires b != []
    ensures r.Some? ==> 1 <= r.value.1 <= |b|
  {
    if b[0] < 0x80 then Some((b[0], 1))
    else if 0xC0 <= b[0] < 0xE0 && |b| >= 2 then Some((Base64(0, 0, b[0] as int - 0xC0, b[1] as int - 0x80), 2))
    else if 0xE0 <= b[0] < 0xF0 && |b| >= 3 then Some((Base64(0, b[0] as int - 0xE0, b[1] as int - 0x80, b[2] as int - 0x80), 3))
    else if 0xF0 <= b[0] && |b| >= 4 then Some((Base64(b[0] as int - 0xF0, b[1] as int - 0x80, b[2] as int - 0x80, b[3] as int - 0x80), 4))
    else None
  }

  predicate IsScalar(n: int) {
    0 <= n < 0xD800 || 0xE000 <= n < 0x110000
  }

  function UnUtf8(b: Bytes): Option<string>
    decreases |b|
  {
    if b == [] then Some("")
    else
      var first := FirstCodePoint(b);
      if first.None? || !IsScalar(first.value.0) then None
      else
        var rest := UnUtf8(b[first.value.1..]);
        if rest.None? then None else Some([first.value.0 as char] + rest.value)
  }

  lemma {:induction false} Base64Digits(n: nat)
    ensures n == Base64(n / 262144, n / 4096 % 64, n / 64 % 64, n % 64)
    ensures n < 0x10000 ==> n == Base64(0, n / 4096, n / 64 % 64, n % 64)
    ensures n < 0x800 ==> n == Base64(0, 0, n / 64, n % 64)
  {
    assert n / 4096 == n / 64 / 64 && n / 262144 == n / 4096 / 64;
  }

  lemma {:induction false} FirstOfChar(c: char, rest: Bytes)
    ensures FirstCodePoint(Utf8Char(c) + rest) == Some((c as int, |Utf8Char(c)|))
  {
    var n := c as int;
    var b := Utf8Char(c);
    Base64Digits(n);
    assert forall i :: 0 <= i < |b| ==> (b + rest)[i] == b[i];
  }

  lemma {:induction false} Utf8RoundTrip(s: string)
    ensures UnUtf8(Utf8(s)) == Some(s)
  {
    if s != "" {
      var b := Utf8(s);
      FirstOfChar(s[0], Utf8(s[1..]));
      assert b[|Utf8Char(s[0])|..] == Utf8(s[1..]);
      Utf8RoundTrip(s[1..]);
      assert [s[0]] + s[1..] == s;
    }
  }
}
