/** The printed form of a flat object, character by character and byte by byte. */
module JsonForm {
  import opened Bytes
  import opened Encodings
  import opened Json
  import opened Text
  import opened Wrappers

  // ---------------------------------------------------------------------------
  // Characters
  // ---------------------------------------------------------------------------

  /** The letter of a two-character escape. */
  function ShortLetter(c: char): Option<char> {
    if c == '\"' then Some('\"')
    else if c == '\\' then Some('\\')
    else if c as int == 8 then Some('b')
    else if c as int == 9 then Some('t')
    else if c as int == 10 then Some('n')
    else if c as int == 12 then Some('f')
    else if c as int == 13 then Some('r')
    else None
  }

  /** A backslash, `u` and the four lowercase digits of a number. */
  predicate IsUnicode(e: string, n: int) {
    && |e| == 6 && e[0] == '\\' && e[1] == 'u'
    && IsNibble(e[2], n / 4096) && IsNibble(e[3], n / 256 % 16) && IsNibble(e[4], n / 16 % 16) && IsNibble(e[5], n % 16)
  }

  predicate IsPlain(c: char, ascii: bool) {
    ' ' <= c && c != '\"' && c != '\\' && (ascii ==> c as int < 0x7F)
  }

  /** The text of one character: itself from the blank up, but for the quote and the backslash and, with
      `ascii`, everything from DEL up; a short escape where there is one; otherwise one `\u` escape, or
      those of the two surrogates of a character above U+FFFF. */
  predicate Prints(e: string, c: char, ascii: bool) {
    var n := c as int;
    if IsPlain(c, ascii) then e == [c]
    else if ShortLetter(c).Some? then e == ['\\', ShortLetter(c).value]
    else if n < 0x10000 then IsUnicode(e, n)
    else
      && |e| == 12
      && IsUnicode(e[..6], 0xD800 + (n - 0x10000) / 1024) && IsUnicode(e[6..], 0xDC00 + (n - 0x10000) % 1024)
  }

  function PrintedWidth(c: char, ascii: bool): (w: nat)
    ensures w >= 1
  {
    if IsPlain(c, ascii) then 1 else if ShortLetter(c).Some? then 2 else if c as int < 0x10000 then 6 else 12
  }

  lemma {:induction false} Hex4IsUnicode(n: nat)
    requires n < 0x10000
    ensures IsUnicode(UnicodeEscape(n), n)
  {
    assert UnicodeEscape(n)[2..] == Hex4(n);
    assert n / 4096 < 16;
  }

  lemma {:induction false} SurrogatesPrint(n: nat)
    requires 0x10000 <= n < 0x110000
    ensures |Surrogates(n)| == 12
    ensures IsUnicode(Surrogates(n)[..6], 0xD800 + (n - 0x10000) / 1024)
    ensures IsUnicode(Surrogates(n)[6..], 0xDC00 + (n - 0x10000) % 1024)
  {
    var hi, lo := 0xD800 + (n - 0x10000) / 1024, 0xDC00 + (n - 0x10000) % 1024;
    Hex4IsUnicode(hi);
    Hex4IsUnicode(lo);
    assert Surrogates(n)[..6] == UnicodeEscape(hi) && Surrogates(n)[6..] == UnicodeEscape(lo);
  }

  lemma {:induction false} EscapePrints(c: char, ascii: bool)
    ensures Prints(Escape(c, ascii), c, ascii) && |Escape(c, ascii)| == PrintedWidth(c, ascii)
  {
    var n := c as int;
    if !IsPlain(c, ascii) && ShortLetter(c).None? {
      if n < 0x10000 { Hex4IsUnicode(n); } else { SurrogatesPrint(n); }
    }
  }

  // ---------------------------------------------------------------------------
  // Strings
  // ---------------------------------------------------------------------------

  /** The characters one after the other, then the closing quote. */
  predicate TailPrints(t: string, s: string, ascii: bool)
    decreases |s|, t
  {
    if s == "" then t == "\""
    else
      var w := PrintedWidth(s[0], ascii);
      w <= |t| && Prints(t[..w], s[0], ascii) && TailPrints(t[w..], s[1..], ascii)
  }

  predicate QuotePrints(q: string, s: string, ascii: bool) {
    q != "" && q[0] == '\"' && TailPrints(q[1..], s, ascii)
  }

  lemma {:induction false} PrintedPrefix(e: string, rest: string, s: string, ascii: bool)
    requires s != "" && |e| == PrintedWidth(s[0], ascii) && Prints(e, s[0], ascii) && TailPrints(rest, s[1..], ascii)
    ensures TailPrints(e + rest, s, ascii)
  {
    assert (e + rest)[..|e|] == e && (e + rest)[|e|..] == rest;
  }

  lemma {:induction false} EscapedTailPrints(s: string, ascii: bool)
    ensures TailPrints(EscapeAll(s, ascii) + "\"", s, ascii)
    decreases |s|
  {
    if s == "" {
      assert EscapeAll(s, ascii) + "\"" == "\"";
    } else {
      EscapedTailPrints(s[1..], ascii);
      EscapePrints(s[0], ascii);
      PrintedPrefix(Escape(s[0], ascii), EscapeAll(s[1..], ascii) + "\"", s, ascii);
      EscapeFirst(s, ascii, "\"");
    }
  }

  /** A string is printed between quotes, every character in its one form. */
  lemma {:induction false} QuoteForm(s: string, ascii: bool)
    ensures QuotePrints(Quote(s, ascii), s, ascii)
  {
    EscapedTailPrints(s, ascii);
    assert Quote(s, ascii)[1..] == EscapeAll(s, ascii) + "\"";
  }

  lemma {:induction false} NibbleIsOne(c: char, d: char, n: int)
    requires IsNibble(c, n) && IsNibble(d, n)
    ensures c == d
  {
  }

  lemma {:induction false} UnicodeIsOne(e: string, f: string, n: int)
    requires IsUnicode(e, n) && IsUnicode(f, n)
    ensures e == f
  {
    NibbleIsOne(e[2], f[2], n / 4096);
    NibbleIsOne(e[3], f[3], n / 256 % 16);
    NibbleIsOne(e[4], f[4], n / 16 % 16);
    NibbleIsOne(e[5], f[5], n % 16);
  }

  lemma {:induction false} PrintedIsOne(e: string, f: string, c: char, ascii: bool)
    requires Prints(e, c, ascii) && Prints(f, c, ascii)
    ensures e == f
  {
    var n := c as int;
    if !IsPlain(c, ascii) && ShortLetter(c).None? {
      if n < 0x10000 {
        UnicodeIsOne(e, f, n);
      } else {
        UnicodeIsOne(e[..6], f[..6], 0xD800 + (n - 0x10000) / 1024);
        UnicodeIsOne(e[6..], f[6..], 0xDC00 + (n - 0x10000) % 1024);
        assert e == e[..6] + e[6..] && f == f[..6] + f[6..];
      }
    }
  }

  lemma {:induction false} TailIsOne(t: string, u: string, s: string, ascii: bool)
    requires TailPrints(t, s, ascii) && TailPrints(u, s, ascii)
    ensures t == u
    decreases |s|
  {
    if s != "" {
      var w := PrintedWidth(s[0], ascii);
      PrintedIsOne(t[..w], u[..w], s[0], ascii);
      TailIsOne(t[w..], u[w..], s[1..], ascii);
      assert t == t[..w] + t[w..] && u == u[..w] + u[w..];
    }
  }

  /** There is no other way to print a string. */
  lemma {:induction false} QuoteIsOne(q: string, r: string, s: string, ascii: bool)
    requires QuotePrints(q, s, ascii) && QuotePrints(r, s, ascii)
    ensures q == r
  {
    TailIsOne(q[1..], r[1..], s, ascii);
    assert q == [q[0]] + q[1..] && r == [r[0]] + r[1..];
  }

  predicate AllPlain(s: string) {
    forall i :: 0 <= i < |s| ==> IsPlain(s[i], true)
  }

  /** Plain ASCII text is printed as it stands. */
  lemma {:induction false} PlainQuote(s: string, ascii: bool)
    requires AllPlain(s)
    ensures EscapeAll(s, ascii) == s && Quote(s, ascii) == "\"" + s + "\""
    decreases |s|
  {
    if s != "" {
      EscapePrints(s[0], ascii);
      PlainQuote(s[1..], ascii);
      assert s == [s[0]] + s[1..];
    }
  }

  // ---------------------------------------------------------------------------
  // Values
  // ---------------------------------------------------------------------------

  function DecimalValue(t: string): int {
    if t == "" then 0 else 10 * DecimalValue(t[..|t| - 1]) + (t[|t| - 1] as int - 48)
  }

  predicate NaturalPrints(t: string, n: int) {
    t != "" && (forall i :: 0 <= i < |t| ==> '0' <= t[i] <= '9') && (|t| > 1 ==> t[0] != '0') && DecimalValue(t) == n
  }

  /** Decimal digits without a leading zero, behind a minus for a negative number. */
  predicate DecimalPrints(t: string, n: int) {
    if n < 0 then t != "" && t[0] == '-' && NaturalPrints(t[1..], -n) else NaturalPrints(t, n)
  }

  lemma {:induction false} NatTextPrints(n: nat)
    ensures NaturalPrints(NatText(n), n) && (n > 0 ==> NatText(n)[0] != '0')
    decreases n
  {
    var t := NatText(n);
    if n >= 10 {
      NatTextPrints(n / 10);
      assert t[..|t| - 1] == NatText(n / 10) && t[|t| - 1] == Digit(n % 10);
    } else {
      assert t[..|t| - 1] == "" && t[|t| - 1] == Digit(n);
    }
  }

  lemma {:induction false} IntTextPrints(n: int)
    ensures DecimalPrints(IntText(n), n)
  {
    if n < 0 {
      NatTextPrints(-n);
      assert IntText(n)[1..] == NatText(-n);
    } else {
      NatTextPrints(n);
    }
  }

  lemma {:induction false} LeadingDigit(t: string)
    requires t != "" && (forall i :: 0 <= i < |t| ==> '0' <= t[i] <= '9') && t[0] != '0'
    ensures DecimalValue(t) >= 1
    decreases |t|
  {
    var front := t[..|t| - 1];
    if |t| > 1 { LeadingDigit(front); } else { assert front == ""; }
  }

  lemma {:induction false} NaturalIsNatText(t: string, n: nat)
    requires NaturalPrints(t, n)
    ensures t == NatText(n)
    decreases |t|
  {
    var front, last := t[..|t| - 1], t[|t| - 1];
    assert t == front + [last];
    if |t| > 1 {
      LeadingDigit(front);
      NaturalIsNatText(front, DecimalValue(front));
      assert n / 10 == DecimalValue(front) && n % 10 == last as int - 48;
    } else {
      assert front == "";
    }
  }

  /** Nor a number. */
  lemma {:induction false} DecimalIsOne(t: string, u: string, n: int)
    requires DecimalPrints(t, n) && DecimalPrints(u, n)
    ensures t == u
  {
    if n < 0 {
      NaturalIsNatText(t[1..], -n);
      NaturalIsNatText(u[1..], -n);
      assert t == [t[0]] + t[1..] && u == [u[0]] + u[1..];
    } else {
      NaturalIsNatText(t, n);
      NaturalIsNatText(u, n);
    }
  }

  /** Parts with a comma between each two. */
  function Joined(parts: seq<string>): string {
    if parts == [] then "" else if |parts| == 1 then parts[0] else parts[0] + "," + Joined(parts[1..])
  }

  ghost predicate ListPrints(t: string, items: seq<string>, ascii: bool) {
    exists parts: seq<string> ::
      |parts| == |items| && t == "[" + Joined(parts) + "]" && forall i :: 0 <= i < |items| ==> QuotePrints(parts[i], items[i], ascii)
  }

  ghost predicate ValuePrints(t: string, v: Value, ascii: bool) {
    match v
    case Null => t == "null"
    case Bool(b) => if b then t == "true" else t == "false"
    case Number(n) => DecimalPrints(t, n)
    case String(s) => QuotePrints(t, s, ascii)
    case Strings(items) => ListPrints(t, items, ascii)
  }

  function Quotes(items: seq<string>, ascii: bool): (parts: seq<string>)
    ensures |parts| == |items| && forall i :: 0 <= i < |items| ==> parts[i] == Quote(items[i], ascii)
  {
    seq(|items|, i requires 0 <= i < |items| => Quote(items[i], ascii))
  }

  lemma {:induction false} ItemsAreJoined(items: seq<string>, ascii: bool)
    ensures PrintItems(items, ascii) == Joined(Quotes(items, ascii))
    decreases |items|
  {
    if |items| > 1 {
      var parts := Quotes(items, ascii);
      ItemsAreJoined(items[1..], ascii);
      assert parts[1..] == Quotes(items[1..], ascii);
      assert parts[0] + "," + Joined(parts[1..]) == parts[0] + ("," + Joined(parts[1..]));
    }
  }

  lemma {:induction false} ListForm(items: seq<string>, ascii: bool)
    ensures ListPrints(Print(Strings(items), ascii), items, ascii)
  {
    var parts := Quotes(items, ascii);
    ItemsAreJoined(items, ascii);
    forall i | 0 <= i < |items| ensures QuotePrints(parts[i], items[i], ascii) {
      QuoteForm(items[i], ascii);
    }
    assert Print(Strings(items), ascii) == "[" + Joined(parts) + "]";
  }

  lemma {:induction false} ValueForm(v: Value, ascii: bool)
    ensures ValuePrints(Print(v, ascii), v, ascii)
  {
    match v
    case Null =>
    case Bool(_) =>
    case Number(n) => IntTextPrints(n);
    case String(s) => QuoteForm(s, ascii);
    case Strings(items) => ListForm(items, ascii);
  }

  // ---------------------------------------------------------------------------
  // Objects
  // ---------------------------------------------------------------------------

  ghost predicate MemberPrints(t: string, key: string, v: Value, ascii: bool) {
    exists k: string, x: string :: t == k + ":" + x && QuotePrints(k, key, ascii) && ValuePrints(x, v, ascii)
  }

  /** Members in the order of their keys, commas between them, no blank anywhere. */
  ghost predicate ObjectPrints(t: string, m: Object, ascii: bool) {
    exists keys: seq<string>, members: seq<string> ::
      && StrictlySorted(keys) && Elements(keys) == m.Keys
      && |members| == |keys| && t == "{" + Joined(members) + "}"
      && forall i :: 0 <= i < |keys| ==> keys[i] in m && MemberPrints(members[i], keys[i], m[keys[i]], ascii)
  }

  function MemberTexts(keys: seq<string>, m: Object, ascii: bool): (members: seq<string>)
    requires forall k :: k in keys ==> k in m
    ensures |members| == |keys| && forall i :: 0 <= i < |keys| ==> members[i] == Member(keys[i], m[keys[i]], ascii)
  {
    seq(|keys|, i requires 0 <= i < |keys| => Member(keys[i], m[keys[i]], ascii))
  }

  lemma {:induction false} JoinedCons(first: string, rest: seq<string>)
    requires rest != []
    ensures Joined([first] + rest) == first + ("," + Joined(rest))
  {
    assert ([first] + rest)[1..] == rest;
    assert first + "," + Joined(rest) == first + ("," + Joined(rest));
  }

  lemma {:induction false} TextsCons(keys: seq<string>, m: Object, ascii: bool)
    requires keys != [] && forall k :: k in keys ==> k in m
    ensures forall k :: k in keys[1..] ==> k in m
    ensures MemberTexts(keys, m, ascii) == [Member(keys[0], m[keys[0]], ascii)] + MemberTexts(keys[1..], m, ascii)
  {
  }

  lemma {:induction false} MembersAreJoined(keys: seq<string>, m: Object, ascii: bool)
    requires forall k :: k in keys ==> k in m
    ensures PrintMembers(keys, m, ascii) == Joined(MemberTexts(keys, m, ascii))
    decreases |keys|
  {
    if |keys| > 1 {
      TextsCons(keys, m, ascii);
      MembersAreJoined(keys[1..], m, ascii);
      JoinedCons(Member(keys[0], m[keys[0]], ascii), MemberTexts(keys[1..], m, ascii));
    }
  }

  lemma {:induction false} MemberForm(key: string, v: Value, ascii: bool)
    ensures MemberPrints(Member(key, v, ascii), key, v, ascii)
  {
    var k, x := Quote(key, ascii), Print(v, ascii);
    QuoteForm(key, ascii);
    ValueForm(v, ascii);
    assert Member(key, v, ascii) == k + ":" + x;
  }

  /** Whatever enumeration of the keys is sorted, the text is the braces around its members. */
  lemma {:induction false} ObjectText(m: Object, ascii: bool, keys: seq<string>)
    requires StrictlySorted(keys) && Elements(keys) == m.Keys
    ensures forall k :: k in keys ==> k in m
    ensures PrintObject(m, ascii) == "{" + Joined(MemberTexts(keys, m, ascii)) + "}"
  {
    SortedUnique(keys, m.Keys);
    PrintsSorted(m, ascii);
    MembersAreJoined(keys, m, ascii);
    assert "{" + (Joined(MemberTexts(keys, m, ascii)) + "}") == "{" + Joined(MemberTexts(keys, m, ascii)) + "}";
  }

  lemma {:induction false} ObjectForm(m: Object, ascii: bool)
    ensures ObjectPrints(PrintObject(m, ascii), m, ascii)
  {
    var keys := Sorted(m.Keys);
    SortedIsSorted(m.Keys);
    ObjectText(m, ascii, keys);
    var members := MemberTexts(keys, m, ascii);
    forall i | 0 <= i < |keys| ensures keys[i] in m && MemberPrints(members[i], keys[i], m[keys[i]], ascii) {
      assert keys[i] in keys;
      MemberForm(keys[i], m[keys[i]], ascii);
    }
  }

  // ---------------------------------------------------------------------------
  // Bytes
  // ---------------------------------------------------------------------------

  predicate Follows(b: byte) {
    0x80 <= b < 0xC0
  }

  function EncodedWidth(c: char): (w: nat)
    ensures w >= 1
  {
    var n := c as int;
    if n < 0x80 then 1 else if n < 0x800 then 2 else if n < 0x10000 then 3 else 4
  }

  /** The payload bits of a mark or following byte, at their place. */
  function Bits(b: byte, mark: int, weight: int): int {
    (b as int - mark) * weight
  }

  /** The shortest form of a character (section 3 of RFC 3629): the payload bits in order behind the marks. */
  predicate IsShortestForm(b: Bytes, c: char) {
    var n := c as int;
    && |b| == EncodedWidth(c)
    && (|b| == 1 ==> b[0] == n)
    && (|b| == 2 ==> 0xC0 <= b[0] < 0xE0 && Follows(b[1]) && n == Bits(b[0], 0xC0, 64) + Bits(b[1], 0x80, 1))
    && (|b| == 3 ==> 0xE0 <= b[0] < 0xF0 && Follows(b[1]) && Follows(b[2])
                     && n == Bits(b[0], 0xE0, 4096) + Bits(b[1], 0x80, 64) + Bits(b[2], 0x80, 1))
    && (|b| == 4 ==> 0xF0 <= b[0] < 0xF8 && Follows(b[1]) && Follows(b[2]) && Follows(b[3])
                     && n == Bits(b[0], 0xF0, 262144) + Bits(b[1], 0x80, 4096) + Bits(b[2], 0x80, 64) + Bits(b[3], 0x80, 1))
  }

  /** The characters' shortest forms one after the other. */
  predicate Encodes(b: Bytes, s: string)
    decreases |s|, b
  {
    if s == "" then b == []
    else EncodedWidth(s[0]) <= |b| && IsShortestForm(b[..EncodedWidth(s[0])], s[0]) && Encodes(b[EncodedWidth(s[0])..], s[1..])
  }

  lemma {:induction false} SixBits(n: nat)
    ensures n == n / 64 * 64 + n % 64 && n % 64 < 64
    ensures n / 4096 == n / 64 / 64 && n / 262144 == n / 4096 / 64
  {
  }

  lemma {:induction false} TwoByteForm(c: char)
    requires 0x80 <= c as int < 0x800
    ensures IsShortestForm(Utf8Char(c), c)
  {
    SixBits(c as int);
  }

  lemma {:induction false} ThreeByteForm(c: char)
    requires 0x800 <= c as int < 0x10000
    ensures IsShortestForm(Utf8Char(c), c)
  {
    SixBits(c as int);
    SixBits(c as int / 64);
  }

  lemma {:induction false} FourByteForm(c: char)
    requires 0x10000 <= c as int
    ensures IsShortestForm(Utf8Char(c), c)
  {
    SixBits(c as int);
    SixBits(c as int / 64);
    SixBits(c as int / 4096);
  }

  lemma {:induction false} Utf8CharForm(c: char)
    ensures IsShortestForm(Utf8Char(c), c)
  {
    if c as int >= 0x10000 {
      FourByteForm(c);
    } else if c as int >= 0x800 {
      ThreeByteForm(c);
    } else if c as int >= 0x80 {
      TwoByteForm(c);
    }
  }

  lemma {:induction false} SameBits(a: int, x: int, b: int, y: int)
    requires 0 <= x < 64 && 0 <= y < 64 && a * 64 + x == b * 64 + y
    ensures a == b && x == y
  {
  }

  lemma {:induction false} ThreeBytesAreOne(a: Bytes, b: Bytes, c: char)
    requires IsShortestForm(a, c) && IsShortestForm(b, c) && |a| == 3
    ensures a == b
  {
    var x, y := (a[0] as int - 0xE0) * 64 + (a[1] as int - 0x80), (b[0] as int - 0xE0) * 64 + (b[1] as int - 0x80);
    SameBits(x, a[2] as int - 0x80, y, b[2] as int - 0x80);
    SameBits(a[0] as int - 0xE0, a[1] as int - 0x80, b[0] as int - 0xE0, b[1] as int - 0x80);
  }

  lemma {:induction false} FourBytesAreOne(a: Bytes, b: Bytes, c: char)
    requires IsShortestForm(a, c) && IsShortestForm(b, c) && |a| == 4
    ensures a == b
  {
    var p, q := (a[0] as int - 0xF0) * 64 + (a[1] as int - 0x80), (b[0] as int - 0xF0) * 64 + (b[1] as int - 0x80);
    SameBits(p * 64 + (a[2] as int - 0x80), a[3] as int - 0x80, q * 64 + (b[2] as int - 0x80), b[3] as int - 0x80);
    SameBits(p, a[2] as int - 0x80, q, b[2] as int - 0x80);
    SameBits(a[0] as int - 0xF0, a[1] as int - 0x80, b[0] as int - 0xF0, b[1] as int - 0x80);
  }

  lemma {:induction false} ShortestIsOne(a: Bytes, b: Bytes, c: char)
    requires IsShortestForm(a, c) && IsShortestForm(b, c)
    ensures a == b
  {
    if |a| == 4 {
      FourBytesAreOne(a, b, c);
    } else if |a| == 3 {
      ThreeBytesAreOne(a, b, c);
    } else if |a| == 2 {
      SameBits(a[0] as int - 0xC0, a[1] as int - 0x80, b[0] as int - 0xC0, b[1] as int - 0x80);
    }
  }

  /** A text has no other encoding. */
  lemma {:induction false} EncodingIsOne(a: Bytes, b: Bytes, s: string)
    requires Encodes(a, s) && Encodes(b, s)
    ensures a == b
    decreases |s|
  {
    if s != "" {
      var w := EncodedWidth(s[0]);
      ShortestIsOne(a[..w], b[..w], s[0]);
      EncodingIsOne(a[w..], b[w..], s[1..]);
      assert a == a[..w] + a[w..] && b == b[..w] + b[w..];
    }
  }

  lemma {:induction false} Utf8Form(s: string)
    ensures Encodes(Utf8(s), s)
    decreases |s|
  {
    if s != "" {
      var e, rest := Utf8Char(s[0]), Utf8(s[1..]);
      Utf8CharForm(s[0]);
      Utf8Form(s[1..]);
      assert (e + rest)[..|e|] == e && (e + rest)[|e|..] == rest;
    }
  }

  /** The bytes of an object: the shortest encoding of its one text. */
  lemma {:induction false} DumpsForm(m: Object, ascii: bool)
    ensures exists t: string :: ObjectPrints(t, m, ascii) && Encodes(Dumps(m, ascii), t)
  {
    ObjectForm(m, ascii);
    Utf8Form(PrintObject(m, ascii));
  }

  /** The shortest encoding of a text that prints the object the reader finds in it. */
  ghost predicate IsDump(b: Bytes, ascii: bool) {
    Loads(b).Some? && exists t: string :: ObjectPrints(t, Loads(b).value, ascii) && Encodes(b, t)
  }

  lemma {:induction false} DumpReads(b: Bytes, m: Object, ascii: bool)
    requires b == Dumps(m, ascii)
    ensures IsDump(b, ascii)
  {
    RoundTrip(m, ascii);
    DumpsForm(m, ascii);
  }
}
