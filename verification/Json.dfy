/** Python's `json.dumps` with sorted keys and compact separators, on flat objects, and a
    reader that inverts it (sections 4 to 7 of RFC 8259). */
module Json {
  import opened Bytes
  import opened Encodings
  import opened Text
  import opened Wrappers

  datatype Value =
    | Null
    | Bool(b: bool)
    | Number(n: int)
    | String(s: string)
    | Strings(items: seq<string>)

  type Object = map<string, Value>

  // ---------------------------------------------------------------------------
  // Strings
  // ---------------------------------------------------------------------------

  function Hex4(n: nat): (s: string)
    requires n < 0x10000
    ensures |s| == 4
  {
    [HexDigit(n / 4096), HexDigit(n / 256 % 16), HexDigit(n / 16 % 16), HexDigit(n % 16)]
  }

  function UnHex4(s: string): (v: Option<nat>)
    ensures v.Some? ==> |s| >= 4 && v.value < 0x10000
  {
    if |s| < 4 then None
    else
      match (HexValue(s[0]), HexValue(s[1]), HexValue(s[2]), HexValue(s[3]))
      case (Some(a), Some(b), Some(c), Some(d)) => Some(((a * 16 + b) * 16 + c) * 16 + d)
      case _ => None
  }

  function UnicodeEscape(n: nat): string
    requires n < 0x10000
  {
    "\\u" + Hex4(n)
  }

  function Surrogates(n: nat): string
    requires 0x10000 <= n < 0x110000
  {
    UnicodeEscape(0xD800 + (n - 0x10000) / 0x400) + UnicodeEscape(0xDC00 + (n - 0x10000) % 0x400)
  }

  /** One character as it appears inside a JSON string; with `ascii` set, every
      character outside `' '..'~'` is escaped, in two halves above U+FFFF. */
  function Escape(c: char, ascii: bool): (s: string)
    ensures s != ""
  {
    var n := c as int;
    if c == '\"' then "\\\""
    else if c == '\\' then "\\\\"
    else if c == '\n' then "\\n"
    else if c == '\r' then "\\r"
    else if c == '\t' then "\\t"
    else if n == 0x0C then "\\f"
    else if n == 0x08 then "\\b"
    else if n < 0x20 then UnicodeEscape(n)
    else if !ascii || n < 0x7F then [c]
    else if n < 0x10000 then UnicodeEscape(n)
    else Surrogates(n)
  }

  function EscapeAll(s: string, ascii: bool): string {
    if s == "" then "" else Escape(s[0], ascii) + EscapeAll(s[1..], ascii)
  }

  function Quote(s: string, ascii: bool): string {
    "\"" + (EscapeAll(s, ascii) + "\"")
  }

  datatype Parsed<T> = Fail | Read(value: T, rest: string)

  /** The character written by the escape `\uXXXX`, or by two of them for a surrogate pair. */
  function ReadUnicode(s: string): (r: Parsed<char>)
    ensures r.Read? ==> |r.rest| < |s|
  {
    if UnHex4(s).None? then Fail
    else
      var n := UnHex4(s).value;
      if IsScalar(n) then Read(n as char, s[4..])
      else if n < 0xDC00 && |s| >= 10 && s[4..6] == "\\u" && UnHex4(s[6..]).Some?
              && 0xDC00 <= UnHex4(s[6..]).value < 0xE000 then
        Read((0x10000 + (n - 0xD800) * 0x400 + (UnHex4(s[6..]).value - 0xDC00)) as char, s[10..])
      else Fail
  }

  function ReadChar(s: string): (r: Parsed<char>)
    ensures r.Read? ==> |r.rest| < |s|
  {
    if s == "" || s[0] == '\"' || s[0] as int < 0x20 then Fail
    else if s[0] != '\\' then Read(s[0], s[1..])
    else if |s| == 1 then Fail
    else
      match s[1]
      case '\"' => Read('\"', s[2..])
      case '\\' => Read('\\', s[2..])
      case 'n' => Read('\n', s[2..])
      case 'r' => Read('\r', s[2..])
      case 't' => Read('\t', s[2..])
      case 'f' => Read(0x0C as char, s[2..])
      case 'b' => Read(0x08 as char, s[2..])
      case 'u' => ReadUnicode(s[2..])
      case _ => Fail
  }

  /** Characters up to and including the closing quote. */
  function ReadTail(s: string): (r: Parsed<string>)
    ensures r.Read? ==> |r.rest| < |s|
    decreases |s|
  {
    if s == "" then Fail
    else if s[0] == '\"' then Read("", s[1..])
    else
      match ReadChar(s)
      case Fail => Fail
      case Read(c, rest) =>
        match ReadTail(rest)
        case Fail => Fail
        case Read(cs, rest') => Read([c] + cs, rest')
  }

  function ReadString(s: string): (r: Parsed<string>)
    ensures r.Read? ==> |r.rest| < |s|
  {
    if s != "" && s[0] == '\"' then ReadTail(s[1..]) else Fail
  }

  lemma {:induction false} Hex4RoundTrip(n: nat, rest: string)
    requires n < 0x10000
    ensures UnHex4(Hex4(n) + rest) == Some(n)
  {
    var a, b, c, d := n / 4096, n / 256 % 16, n / 16 % 16, n % 16;
    HexDigitValue(a);
    HexDigitValue(b);
    HexDigitValue(c);
    HexDigitValue(d);
    assert n / 256 == n / 16 / 16 && n / 4096 == n / 256 / 16;
    assert n == ((a * 16 + b) * 16 + c) * 16 + d;
    assert forall i :: 0 <= i < 4 ==> (Hex4(n) + rest)[i] == Hex4(n)[i];
  }

  lemma {:induction false} ReadScalar(n: nat, rest: string)
    requires n < 0x10000 && IsScalar(n)
    ensures ReadUnicode(Hex4(n) + rest) == Read(n as char, rest)
  {
    Hex4RoundTrip(n, rest);
    assert (Hex4(n) + rest)[4..] == rest;
  }

  lemma {:induction false} SurrogatePair(n: nat, hi: nat, lo: nat)
    requires 0x10000 <= n < 0x110000
    requires hi == 0xD800 + (n - 0x10000) / 0x400 && lo == 0xDC00 + (n - 0x10000) % 0x400
    ensures 0xD800 <= hi < 0xDC00 <= lo < 0xE000
    ensures n == 0x10000 + (hi - 0xD800) * 0x400 + (lo - 0xDC00)
  {
  }

  lemma {:induction false} PairLayout(a: string, b: string, rest: string)
    requires |a| == 4 && |b| == 4
    ensures var s := a + ("\\u" + b + rest); s[4..6] == "\\u" && s[6..] == b + rest && s[10..] == rest
  {
  }

  lemma {:induction false} ReadPair(n: nat, hi: nat, lo: nat, rest: string)
    requires 0x10000 <= n < 0x110000 && 0xD800 <= hi < 0xDC00 <= lo < 0xE000
    requires n == 0x10000 + (hi - 0xD800) * 0x400 + (lo - 0xDC00)
    ensures ReadUnicode(Hex4(hi) + (UnicodeEscape(lo) + rest)) == Read(n as char, rest)
  {
    var s := Hex4(hi) + (UnicodeEscape(lo) + rest);
    Hex4RoundTrip(hi, UnicodeEscape(lo) + rest);
    Hex4RoundTrip(lo, rest);
    PairLayout(Hex4(hi), Hex4(lo), rest);
    assert !IsScalar(hi);
  }

  /** Where an escape `\uXXXX` leaves the reader. */
  lemma {:induction false} ReadUnicodeEscape(n: nat, rest: string)
    requires n < 0x10000
    ensures ReadChar(UnicodeEscape(n) + rest) == ReadUnicode(Hex4(n) + rest)
  {
    assert (UnicodeEscape(n) + rest)[2..] == Hex4(n) + rest;
  }

  lemma {:induction false} ReadScalarEscape(c: char, rest: string)
    requires c as int < 0x10000
    ensures ReadChar(UnicodeEscape(c as int) + rest) == Read(c, rest)
  {
    ReadUnicodeEscape(c as int, rest);
    ReadScalar(c as int, rest);
  }

  lemma {:induction false} ReadSurrogates(n: nat, rest: string)
    requires 0x10000 <= n < 0x110000
    ensures Surrogates(n)[0] == '\\' && ReadChar(Surrogates(n) + rest) == Read(n as char, rest)
  {
    var hi, lo := 0xD800 + (n - 0x10000) / 0x400, 0xDC00 + (n - 0x10000) % 0x400;
    SurrogatePair(n, hi, lo);
    assert Surrogates(n) + rest == UnicodeEscape(hi) + (UnicodeEscape(lo) + rest);
    ReadUnicodeEscape(hi, UnicodeEscape(lo) + rest);
    ReadPair(n, hi, lo, rest);
  }

  /** What the reader makes of a backslash and one more character. */
  function Unescape(k: char): Option<char> {
    match k
    case '\"' => Some('\"')
    case '\\' => Some('\\')
    case 'n' => Some('\n')
    case 'r' => Some('\r')
    case 't' => Some('\t')
    case 'f' => Some(0x0C as char)
    case 'b' => Some(0x08 as char)
    case _ => None
  }

  lemma {:induction false} ReadShort(k: char, rest: string)
    requires Unescape(k).Some?
    ensures ReadChar(['\\', k] + rest) == Read(Unescape(k).value, rest)
  {
    assert (['\\', k] + rest)[2..] == rest;
  }

  /** The four shapes an escaped character takes. */
  predicate EscapeForm(c: char, e: string) {
    var n := c as int;
    if |e| == 1 then e == [c] && c != '\"' && c != '\\' && n >= 0x20
    else if |e| == 2 then e[0] == '\\' && Unescape(e[1]) == Some(c)
    else if |e| == 6 then n < 0x10000 && e == UnicodeEscape(n)
    else
      n >= 0x10000 && e == Surrogates(n)
  }

  lemma {:induction false} EscapeForms(c: char, ascii: bool)
    ensures EscapeForm(c, Escape(c, ascii))
  {
  }

  lemma {:induction false} ReadPlain(c: char, rest: string)
    requires c != '\"' && c != '\\' && c as int >= 0x20
    ensures ReadChar([c] + rest) == Read(c, rest)
  {
    assert ([c] + rest)[1..] == rest;
  }

  /** `e` is read back as `c`, and the reader does not take it for a closing quote. */
  predicate ReadsAs(e: string, c: char, rest: string) {
    e != "" && e[0] != '\"' && ReadChar(e + rest) == Read(c, rest)
  }

  lemma {:induction false} PlainForm(c: char, e: string, rest: string)
    requires EscapeForm(c, e) && |e| == 1
    ensures ReadsAs(e, c, rest)
  {
    ReadPlain(c, rest);
  }

  lemma {:induction false} ShortForm(c: char, e: string, rest: string)
    requires EscapeForm(c, e) && |e| == 2
    ensures ReadsAs(e, c, rest)
  {
    assert e == ['\\', e[1]];
    ReadShort(e[1], rest);
  }

  lemma {:induction false} ScalarForm(c: char, e: string, rest: string)
    requires EscapeForm(c, e) && |e| == 6
    ensures ReadsAs(e, c, rest)
  {
    ReadScalarEscape(c, rest);
    assert e[0] == '\\';
  }

  lemma {:induction false} PairForm(c: char, rest: string)
    requires c as int >= 0x10000
    ensures ReadsAs(Surrogates(c as int), c, rest)
  {
    ReadSurrogates(c as int, rest);
  }

  lemma {:induction false} ReadEscaped(c: char, ascii: bool, rest: string)
    ensures ReadChar(Escape(c, ascii) + rest) == Read(c, rest)
    ensures Escape(c, ascii)[0] != '\"'
  {
    var e := Escape(c, ascii);
    EscapeForms(c, ascii);
    if |e| == 1 {
      PlainForm(c, e, rest);
    } else if |e| == 2 {
      ShortForm(c, e, rest);
    } else if |e| == 6 {
      ScalarForm(c, e, rest);
    } else {
      PairForm(c, rest);
    }
  }

  lemma {:induction false} ReadTailStep(t: string, c: char, tail: string, cs: string, rest: string)
    requires t != "" && t[0] != '\"'
    requires ReadChar(t) == Read(c, tail) && ReadTail(tail) == Read(cs, rest)
    ensures ReadTail(t) == Read([c] + cs, rest)
  {
  }

  lemma {:induction false} ReadEnd(rest: string)
    ensures ReadTail("\"" + rest) == Read("", rest)
  {
    assert ("\"" + rest)[1..] == rest;
  }

  lemma {:induction false} EscapeFirst(s: string, ascii: bool, end: string)
    requires s != ""
    ensures EscapeAll(s, ascii) + end == Escape(s[0], ascii) + (EscapeAll(s[1..], ascii) + end)
  {
  }

  lemma {:induction false} ReadEscapedAll(s: string, ascii: bool, rest: string)
    ensures ReadTail(EscapeAll(s, ascii) + ("\"" + rest)) == Read(s, rest)
    decreases |s|
  {
    var end := "\"" + rest;
    if s == "" {
      assert EscapeAll(s, ascii) + end == end;
      ReadEnd(rest);
    } else {
      var tail := EscapeAll(s[1..], ascii) + end;
      EscapeFirst(s, ascii, end);
      ReadEscaped(s[0], ascii, tail);
      ReadEscapedAll(s[1..], ascii, rest);
      ReadTailStep(Escape(s[0], ascii) + tail, s[0], tail, s[1..], rest);
      assert [s[0]] + s[1..] == s;
    }
  }

  lemma {:induction false} ReadQuoted(s: string, ascii: bool, rest: string)
    ensures ReadString(Quote(s, ascii) + rest) == Read(s, rest)
  {
    var t := Quote(s, ascii) + rest;
    assert t[1..] == EscapeAll(s, ascii) + ("\"" + rest);
    ReadEscapedAll(s, ascii, rest);
  }

  // ---------------------------------------------------------------------------
  // Integers
  // ---------------------------------------------------------------------------

  function Digit(n: nat): (c: char)
    requires n < 10
    ensures '0' <= c <= '9'
  {
    (48 + n) as char
  }

  function NatText(n: nat): (s: string)
    ensures s != ""
  {
    if n < 10 then [Digit(n)] else NatText(n / 10) + [Digit(n % 10)]
  }

  function IntText(n: int): (s: string)
    ensures s != ""
  {
    if n < 0 then "-" + NatText(-n) else NatText(n)
  }

  predicate IsDigit(c: char) { '0' <= c <= '9' }

  function DigitOf(c: char): nat
    requires IsDigit(c)
  {
    c as int - 48
  }

  /** How many digits `s` starts with. */
  function DigitSpan(s: string): (k: nat)
    ensures k <= |s|
    ensures forall i :: 0 <= i < k ==> IsDigit(s[i])
  {
    if s != "" && IsDigit(s[0]) then 1 + DigitSpan(s[1..]) else 0
  }

  function DigitsValue(s: string): nat
    requires forall i :: 0 <= i < |s| ==> IsDigit(s[i])
  {
    if s == "" then 0 else DigitsValue(s[..|s| - 1]) * 10 + DigitOf(s[|s| - 1])
  }

  function ReadNat(s: string): (r: Parsed<int>)
    ensures r.Read? ==> |r.rest| < |s|
  {
    var k := DigitSpan(s);
    if k == 0 then Fail else Read(DigitsValue(s[..k]), s[k..])
  }

  function ReadInt(s: string): (r: Parsed<int>)
    ensures r.Read? ==> |r.rest| < |s|
  {
    if s != "" && s[0] == '-' then
      match ReadNat(s[1..])
      case Fail => Fail
      case Read(n, rest) => Read(-n, rest)
    else
      match ReadNat(s)
      case Fail => Fail
      case Read(n, rest) => Read(n, rest)
  }

  lemma {:induction false} NatTextDigits(n: nat)
    ensures forall i :: 0 <= i < |NatText(n)| ==> IsDigit(NatText(n)[i])
  {
    if n >= 10 { NatTextDigits(n / 10); }
  }

  lemma {:induction false} NatTextValue(n: nat)
    requires forall i :: 0 <= i < |NatText(n)| ==> IsDigit(NatText(n)[i])
    ensures DigitsValue(NatText(n)) == n
  {
    var s := NatText(n);
    if n < 10 {
      assert s[..0] == "";
    } else {
      assert s[..|s| - 1] == NatText(n / 10);
      NatTextDigits(n / 10);
      NatTextValue(n / 10);
    }
  }

  /** What may follow a number without extending it. */
  predicate NoDigit(rest: string) {
    rest == "" || !IsDigit(rest[0])
  }

  lemma {:induction false} SpanOfDigits(s: string, rest: string)
    requires forall i :: 0 <= i < |s| ==> IsDigit(s[i])
    requires NoDigit(rest)
    ensures DigitSpan(s + rest) == |s|
    decreases |s|
  {
    if s == "" {
      assert s + rest == rest;
    } else {
      assert (s + rest)[1..] == s[1..] + rest;
      SpanOfDigits(s[1..], rest);
    }
  }

  lemma {:induction false} ReadNatText(m: nat, rest: string)
    requires NoDigit(rest)
    ensures ReadNat(NatText(m) + rest) == Read(m, rest)
    ensures IsDigit(NatText(m)[0])
  {
    NatTextDigits(m);
    NatTextValue(m);
    SpanOfDigits(NatText(m), rest);
    var s := NatText(m) + rest;
    assert s[..|NatText(m)|] == NatText(m) && s[|NatText(m)|..] == rest;
  }

  lemma {:induction false} ReadNegative(s: string, m: int, rest: string)
    requires ReadNat(s) == Read(m, rest)
    ensures ReadInt("-" + s) == Read(-m, rest)
  {
    assert ("-" + s)[1..] == s;
  }

  lemma {:induction false} ReadPositive(s: string, m: int, rest: string)
    requires s != "" && IsDigit(s[0]) && ReadNat(s) == Read(m, rest)
    ensures ReadInt(s) == Read(m, rest)
  {
  }

  lemma {:induction false} ReadIntText(n: int, rest: string)
    requires NoDigit(rest)
    ensures ReadInt(IntText(n) + rest) == Read(n, rest)
  {
    var m: nat := if n < 0 then -n else n;
    ReadNatText(m, rest);
    if n < 0 {
      assert IntText(n) + rest == "-" + (NatText(m) + rest);
      ReadNegative(NatText(m) + rest, m, rest);
    } else {
      ReadPositive(NatText(m) + rest, m, rest);
    }
  }

  // ---------------------------------------------------------------------------
  // Values
  // ---------------------------------------------------------------------------

  function PrintItems(items: seq<string>, ascii: bool): string {
    if items == [] then ""
    else if |items| == 1 then Quote(items[0], ascii)
    else Quote(items[0], ascii) + ("," + PrintItems(items[1..], ascii))
  }

  function Print(v: Value, ascii: bool): string {
    match v
    case Null => "null"
    case Bool(b) => if b then "true" else "false"
    case Number(n) => IntText(n)
    case String(s) => Quote(s, ascii)
    case Strings(items) => "[" + (PrintItems(items, ascii) + "]")
  }

  function ReadItems(s: string): (r: Parsed<seq<string>>)
    ensures r.Read? ==> |r.rest| < |s|
    decreases |s|
  {
    match ReadString(s)
    case Fail => Fail
    case Read(item, rest) =>
      if rest == "" then Fail
      else if rest[0] == ']' then Read([item], rest[1..])
      else if rest[0] == ',' then
        match ReadItems(rest[1..])
        case Fail => Fail
        case Read(items, rest') => Read([item] + items, rest')
      else Fail
  }

  /** Leading blanks are skipped. */
  function ReadValue(s: string): (r: Parsed<Value>)
    ensures r.Read? ==> |r.rest| < |s|
    decreases |s|
  {
    if s == "" then Fail
    else if s[0] == ' ' then ReadValue(s[1..])
    else if s[0] == '\"' then
      match ReadString(s)
      case Fail => Fail
      case Read(x, rest) => Read(String(x), rest)
    else if s[0] == '[' then
      if |s| >= 2 && s[1] == ']' then Read(Strings([]), s[2..])
      else
        match ReadItems(s[1..])
        case Fail => Fail
        case Read(items, rest) => Read(Strings(items), rest)
    else if s[0] == 'n' && |s| >= 4 && s[..4] == "null" then Read(Null, s[4..])
    else if s[0] == 't' && |s| >= 4 && s[..4] == "true" then Read(Bool(true), s[4..])
    else if s[0] == 'f' && |s| >= 5 && s[..5] == "false" then Read(Bool(false), s[5..])
    else
      match ReadInt(s)
      case Fail => Fail
      case Read(n, rest) => Read(Number(n), rest)
  }

  /** A one-character separator in front of `t`. */
  lemma {:induction false} Separated(sep: string, t: string)
    requires |sep| == 1
    ensures sep + t != "" && (sep + t)[0] == sep[0] && (sep + t)[1..] == t
  {
  }

  lemma {:induction false} ReadLastItem(item: string, ascii: bool, rest: string)
    ensures ReadItems(Quote(item, ascii) + ("]" + rest)) == Read([item], rest)
  {
    ReadQuoted(item, ascii, "]" + rest);
    Separated("]", rest);
  }

  lemma {:induction false} ReadNextItem(item: string, ascii: bool, tail: string, items: seq<string>, rest: string)
    requires ReadItems(tail) == Read(items, rest)
    ensures ReadItems(Quote(item, ascii) + ("," + tail)) == Read([item] + items, rest)
  {
    ReadQuoted(item, ascii, "," + tail);
    Separated(",", tail);
  }

  lemma {:induction false} ReadPrintedItems(items: seq<string>, ascii: bool, rest: string)
    requires items != []
    ensures ReadItems(PrintItems(items, ascii) + ("]" + rest)) == Read(items, rest)
    decreases |items|
  {
    if |items| == 1 {
      ReadLastItem(items[0], ascii, rest);
      assert items == [items[0]];
    } else {
      ReadPrintedItems(items[1..], ascii, rest);
      var tail := PrintItems(items[1..], ascii) + ("]" + rest);
      ReadNextItem(items[0], ascii, tail, items[1..], rest);
      assert Quote(items[0], ascii) + ("," + PrintItems(items[1..], ascii)) + ("]" + rest)
          == Quote(items[0], ascii) + ("," + tail);
      assert items == [items[0]] + items[1..];
    }
  }

  lemma {:induction false} ItemsStartWithQuote(items: seq<string>, ascii: bool)
    requires items != []
    ensures PrintItems(items, ascii) != "" && PrintItems(items, ascii)[0] == '\"'
  {
  }

  lemma {:induction false} ReadNoStrings(rest: string)
    ensures ReadValue("[" + ("]" + rest)) == Read(Strings([]), rest)
  {
    Separated("[", "]" + rest);
    Separated("]", rest);
    assert ("[" + ("]" + rest))[2..] == ("]" + rest)[1..];
  }

  lemma {:induction false} ReadSomeStrings(items: seq<string>, inner: string, rest: string)
    requires inner != "" && inner[0] == '\"' && ReadItems(inner) == Read(items, rest)
    ensures ReadValue("[" + inner) == Read(Strings(items), rest)
  {
    Separated("[", inner);
    assert ("[" + inner)[1] == inner[0] == '\"';
  }

  lemma {:induction false} ReadPrintedStrings(items: seq<string>, ascii: bool, rest: string)
    ensures ReadValue(Print(Strings(items), ascii) + rest) == Read(Strings(items), rest)
  {
    var inner := PrintItems(items, ascii) + ("]" + rest);
    assert Print(Strings(items), ascii) + rest == "[" + inner;
    if items == [] {
      assert inner == "]" + rest;
      ReadNoStrings(rest);
    } else {
      ItemsStartWithQuote(items, ascii);
      ReadPrintedItems(items, ascii, rest);
      ReadSomeStrings(items, inner, rest);
    }
  }

  lemma {:induction false} ReadPrintedNumber(n: int, rest: string)
    requires NoDigit(rest)
    ensures ReadValue(IntText(n) + rest) == Read(Number(n), rest)
  {
    ReadIntText(n, rest);
    var s := IntText(n) + rest;
    if n < 0 {
      assert s[0] == '-';
    } else {
      NatTextDigits(n);
      assert IsDigit(s[0]);
    }
  }

  lemma {:induction false} ReadPrinted(v: Value, ascii: bool, rest: string)
    requires NoDigit(rest)
    ensures ReadValue(Print(v, ascii) + rest) == Read(v, rest)
  {
    var s := Print(v, ascii) + rest;
    assert s[|Print(v, ascii)|..] == rest && s[..|Print(v, ascii)|] == Print(v, ascii);
    match v
    case Null =>
    case Bool(b) =>
    case Number(n) => ReadPrintedNumber(n, rest);
    case String(x) => ReadQuoted(x, ascii, rest);
    case Strings(items) => ReadPrintedStrings(items, ascii, rest);
  }

  // ---------------------------------------------------------------------------
  // Objects
  // ---------------------------------------------------------------------------

  function Member(key: string, v: Value, ascii: bool): string {
    Quote(key, ascii) + (":" + Print(v, ascii))
  }

  function PrintMembers(keys: seq<string>, m: Object, ascii: bool): string
    requires forall k :: k in keys ==> k in m
  {
    if keys == [] then ""
    else
      var member := Member(keys[0], m[keys[0]], ascii);
      if |keys| == 1 then member else member + ("," + PrintMembers(keys[1..], m, ascii))
  }

  /** From the opening brace on, always with the smallest remaining key next, as `sort_keys` asks. */
  function PrintFrom(m: Object, begun: bool, ascii: bool): string
    decreases m.Keys, !begun
  {
    if !begun then "{" + PrintFrom(m, true, ascii)
    else if m == map[] then "}"
    else
      var k := Least(m.Keys);
      Member(k, m[k], ascii) + ((if |m| == 1 then "" else ",") + PrintFrom(m - {k}, true, ascii))
  }

  /** `json.dumps(m, sort_keys=True, separators=(",", ":"), ensure_ascii=ascii)` */
  function PrintObject(m: Object, ascii: bool): string {
    PrintFrom(m, false, ascii)
  }

  lemma {:induction false} SortedKeys(m: Object)
    ensures forall k :: k in Sorted(m.Keys) <==> k in m
  {
    SortedIsSorted(m.Keys);
    forall k ensures k in Sorted(m.Keys) <==> k in m {
      assert k in Sorted(m.Keys) <==> k in Elements(Sorted(m.Keys));
    }
  }

  lemma {:induction false} PrintFewer(keys: seq<string>, m: Object, k: string, ascii: bool)
    requires k in m && forall x :: x in keys ==> x in m && x != k
    ensures PrintMembers(keys, m, ascii) == PrintMembers(keys, m - {k}, ascii)
    decreases |keys|
  {
    if |keys| > 1 { PrintFewer(keys[1..], m, k, ascii); }
  }

  lemma {:induction false} PrintMembersCons(k: string, rest: seq<string>, m: Object, ascii: bool)
    requires k in m && forall x :: x in rest ==> x in m
    ensures forall x :: x in [k] + rest ==> x in m
    ensures PrintMembers([k] + rest, m, ascii) ==
            Member(k, m[k], ascii) + (if rest == [] then "" else "," + PrintMembers(rest, m, ascii))
  {
    assert ([k] + rest)[1..] == rest;
  }

  lemma {:induction false} PrintOne(m: Object, ascii: bool, last: bool, tail: string)
    requires m != map[] && last == (|m| == 1) && (last ==> tail == "")
    requires PrintFrom(m - {Least(m.Keys)}, true, ascii) == tail + "}"
    ensures var k := Least(m.Keys);
            PrintFrom(m, true, ascii) == Member(k, m[k], ascii) + (if last then "" else "," + tail) + "}"
  {
  }

  /** So the members come in the sorted order of their keys. */
  lemma {:induction false} PrintsSorted(m: Object, ascii: bool)
    ensures forall k :: k in Sorted(m.Keys) ==> k in m
    ensures PrintFrom(m, true, ascii) == PrintMembers(Sorted(m.Keys), m, ascii) + "}"
    decreases |m.Keys|
  {
    SortedKeys(m);
    if m == map[] {
      assert Sorted(m.Keys) == [];
    } else {
      var k := Least(m.Keys);
      var fewer := m - {k};
      assert fewer.Keys == m.Keys - {k} && |m| == |m.Keys| == |fewer.Keys| + 1;
      var rest := Sorted(fewer.Keys);
      SortedKeys(fewer);
      PrintsSorted(fewer, ascii);
      PrintFewer(rest, m, k, ascii);
      PrintMembersCons(k, rest, m, ascii);
      if rest == [] {
        assert fewer == map[] by { assert forall x :: x in fewer ==> x in rest; }
      }
      PrintOne(m, ascii, rest == [], PrintMembers(rest, m, ascii));
    }
  }

  function ReadMembers(s: string): (r: Parsed<Object>)
    ensures r.Read? ==> |r.rest| < |s|
    decreases |s|
  {
    match ReadString(s)
    case Fail => Fail
    case Read(key, rest) =>
      if rest == "" || rest[0] != ':' then Fail
      else
        match ReadValue(rest[1..])
        case Fail => Fail
        case Read(v, rest') =>
          if rest' == "" then Fail
          else if rest'[0] == '}' then Read(map[key := v], rest'[1..])
          else if rest'[0] == ',' then
            match ReadMembers(rest'[1..])
            case Fail => Fail
            case Read(m, rest'') => Read(m[key := v], rest'')
          else Fail
  }

  function ReadObject(s: string): Option<Object> {
    if |s| >= 2 && s[..2] == "{}" then (if |s| == 2 then Some(map[]) else None)
    else if s != "" && s[0] == '{' then
      match ReadMembers(s[1..])
      case Fail => None
      case Read(m, rest) => if rest == "" then Some(m) else None
    else None
  }

  /** The printed bytes. */
  function Dumps(m: Object, ascii: bool): Bytes {
    Utf8(PrintObject(m, ascii))
  }

  /** A reader of such bytes, with or without escaped non-ASCII characters. */
  function Loads(b: Bytes): Option<Object> {
    match UnUtf8(b)
    case None => None
    case Some(s) => ReadObject(s)
  }

  lemma {:induction false} ReadKey(key: string, v: Value, ascii: bool, rest: string)
    ensures ReadString(Member(key, v, ascii) + rest) == Read(key, ":" + (Print(v, ascii) + rest))
  {
    var t := ":" + (Print(v, ascii) + rest);
    assert Member(key, v, ascii) + rest == Quote(key, ascii) + t;
    ReadQuoted(key, ascii, t);
  }

  lemma {:induction false} ReadMember(key: string, v: Value, ascii: bool, rest: string)
    requires NoDigit(rest)
    ensures ReadString(Member(key, v, ascii) + rest) == Read(key, ":" + (Print(v, ascii) + rest))
    ensures ReadValue(Print(v, ascii) + rest) == Read(v, rest)
  {
    ReadKey(key, v, ascii, rest);
    ReadPrinted(v, ascii, rest);
  }

  lemma {:induction false} ReadLastMember(key: string, v: Value, ascii: bool, end: string)
    requires end == "}"
    ensures ReadMembers(Member(key, v, ascii) + end) == Read(map[key := v], "")
  {
    ReadMember(key, v, ascii, end);
    Separated(":", Print(v, ascii) + end);
  }

  lemma {:induction false} ReadNextMember(key: string, v: Value, ascii: bool, tail: string, m: Object)
    requires ReadMembers(tail) == Read(m, "")
    ensures ReadMembers(Member(key, v, ascii) + ("," + tail)) == Read(m[key := v], "")
  {
    Separated(",", tail);
    ReadMember(key, v, ascii, "," + tail);
    Separated(":", Print(v, ascii) + ("," + tail));
  }

  function Restrict(m: Object, keys: seq<string>): Object
    requires forall k :: k in keys ==> k in m
  {
    map k | k in keys :: m[k]
  }

  lemma {:induction false} RestrictCons(m: Object, keys: seq<string>)
    requires keys != [] && (forall k :: k in keys ==> k in m)
    ensures forall k :: k in keys[1..] ==> k in m
    ensures Restrict(m, keys) == Restrict(m, keys[1..])[keys[0] := m[keys[0]]]
  {
  }

  lemma {:induction false} Reassociate(a: string, sep: string, b: string, end: string)
    ensures a + (sep + b) + end == a + (sep + (b + end))
  {
  }

  lemma {:induction false} ReadPrintedMembers(keys: seq<string>, m: Object, ascii: bool, end: string)
    requires keys != [] && (forall k :: k in keys ==> k in m) && end == "}"
    ensures ReadMembers(PrintMembers(keys, m, ascii) + end) == Read(Restrict(m, keys), "")
    decreases |keys|
  {
    RestrictCons(m, keys);
    if |keys| == 1 {
      ReadLastMember(keys[0], m[keys[0]], ascii, end);
      assert Restrict(m, keys[1..]) == map[];
    } else {
      ReadPrintedMembers(keys[1..], m, ascii, end);
      var more := PrintMembers(keys[1..], m, ascii);
      ReadNextMember(keys[0], m[keys[0]], ascii, more + end, Restrict(m, keys[1..]));
      Reassociate(Member(keys[0], m[keys[0]], ascii), ",", more, end);
    }
  }

  lemma {:induction false} MembersStartWithQuote(keys: seq<string>, m: Object, ascii: bool)
    requires keys != [] && (forall k :: k in keys ==> k in m)
    ensures PrintMembers(keys, m, ascii) != "" && PrintMembers(keys, m, ascii)[0] == '\"'
  {
  }

  lemma {:induction false} ReadWholeObject(keys: seq<string>, m: Object, ascii: bool)
    requires keys != [] && (forall k :: k in keys <==> k in m)
    ensures ReadObject("{" + (PrintMembers(keys, m, ascii) + "}")) == Some(m)
  {
    var s := "{" + (PrintMembers(keys, m, ascii) + "}");
    assert s[1..] == PrintMembers(keys, m, ascii) + "}";
    MembersStartWithQuote(keys, m, ascii);
    assert s[1] == '\"' && s[..2][1] == '\"';
    ReadPrintedMembers(keys, m, ascii, "}");
    assert Restrict(m, keys) == m;
  }

  lemma {:induction false} ObjectRoundTrip(m: Object, ascii: bool)
    ensures ReadObject(PrintObject(m, ascii)) == Some(m)
  {
    var keys := Sorted(m.Keys);
    SortedKeys(m);
    PrintsSorted(m, ascii);
    if keys == [] {
      assert m == map[] by { assert forall k :: k in m ==> k in keys; }
      assert PrintObject(m, ascii) == "{}";
    } else {
      assert PrintObject(m, ascii) == "{" + (PrintMembers(keys, m, ascii) + "}");
      ReadWholeObject(keys, m, ascii);
    }
  }

  /** Every flat object is recovered from its printed bytes, whichever escaping was used. */
  lemma {:induction false} RoundTrip(m: Object, ascii: bool)
    ensures Loads(Dumps(m, ascii)) == Some(m)
  {
    Utf8RoundTrip(PrintObject(m, ascii));
    ObjectRoundTrip(m, ascii);
  }

  /** Hence the printer is injective. */
  lemma {:induction false} DumpsInjective(a: Object, b: Object, ascii: bool)
    requires Dumps(a, ascii) == Dumps(b, ascii)
    ensures a == b
  {
    RoundTrip(a, ascii);
    RoundTrip(b, ascii);
  }
}
