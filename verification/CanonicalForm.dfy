/** The canonical bytes of a row, field by field. */
module CanonicalForm {
  import opened Bytes
  import opened Canonical
  import opened Encodings
  import opened JsonForm
  import opened Text
  import opened Wrappers
  import Json

  /** The thirteen fields in code-point order. */
  const SORTED_FIELDS: seq<string> := [
    "ast_shape_hash", "caller_id", "cost_class", "fingerprint", "fingerprint_version", "id", "occurred_at",
    "pii_categories", "refusal_reason", "rule_id", "source_connection_id", "status", "tool_name" ]

  /** Two lowercase digits a byte between quotes. */
  predicate HexPrints(t: string, b: Bytes) {
    && |t| == 2 * |b| + 2 && t[0] == '\"' && t[|t| - 1] == '\"'
    && forall i :: 0 <= i < |b| ==> IsNibble(t[1 + 2 * i], b[i] / 16) && IsNibble(t[2 + 2 * i], b[i] % 16)
  }

  /** NULL as `null`, an integer in decimal, text as a JSON string with only the quote, the backslash and
      control characters escaped, bytes in hexadecimal. */
  predicate FieldPrints(t: string, c: Cell) {
    match c
    case SqlNull => t == "null"
    case SqlInteger(n) => DecimalPrints(t, n)
    case SqlText(s) => QuotePrints(t, s, false)
    case SqlBlob(b) => HexPrints(t, b)
  }

  function NamedTexts(names: seq<string>, texts: seq<string>): (members: seq<string>)
    requires |names| == |texts|
    ensures |members| == |names|
    ensures forall i :: 0 <= i < |names| ==> members[i] == "\"" + names[i] + "\":" + texts[i]
  {
    seq(|names|, i requires 0 <= i < |names| => "\"" + names[i] + "\":" + texts[i])
  }

  predicate FieldsPrint(texts: seq<string>, row: Row, names: seq<string>) {
    |texts| == |names| && forall i :: 0 <= i < |names| ==> names[i] in row && FieldPrints(texts[i], row[names[i]])
  }

  function Braced(names: seq<string>, texts: seq<string>): string
    requires |names| == |texts|
  {
    "{" + Joined(NamedTexts(names, texts)) + "}"
  }

  /** One object: the given fields in order, each under its name, no blank anywhere. */
  ghost predicate RowPrints(t: string, row: Row, names: seq<string>) {
    exists texts: seq<string> :: FieldsPrint(texts, row, names) && t == Braced(names, texts)
  }

  lemma {:induction false} SortedBefore(first: string, xs: seq<string>)
    requires xs != [] && StrictlySorted(xs) && Less(first, xs[0])
    ensures StrictlySorted([first] + xs)
  {
    var all := [first] + xs;
    forall i, j | 0 <= i < j < |all| ensures Less(all[i], all[j]) {
      if i == 0 && j > 1 { LessTransitive(first, xs[0], xs[j - 1]); }
    }
  }

  lemma {:induction false} LessAt(a: string, b: string, k: nat)
    requires k <= |a| && k < |b| && a[..k] == b[..k] && (k == |a| || a[k] < b[k])
    ensures Less(a, b)
  {
    LessMeans(a, b);
  }

  /** Field `i` on top of the sorted rest. */
  lemma {:induction false} SuffixSorted(i: nat)
    requires i + 1 < |SORTED_FIELDS| && Less(SORTED_FIELDS[i], SORTED_FIELDS[i + 1]) && StrictlySorted(SORTED_FIELDS[i + 1..])
    ensures StrictlySorted(SORTED_FIELDS[i..])
  {
    SortedBefore(SORTED_FIELDS[i], SORTED_FIELDS[i + 1..]);
    assert SORTED_FIELDS[i..] == [SORTED_FIELDS[i]] + SORTED_FIELDS[i + 1..];
  }

  /** Fields `i` and `i + 1` differ at place `k` first. */
  lemma {:induction false} DiffersAt(i: nat, k: nat)
    requires i + 1 < |SORTED_FIELDS| && k <= |SORTED_FIELDS[i]| && k < |SORTED_FIELDS[i + 1]|
    requires SORTED_FIELDS[i][..k] == SORTED_FIELDS[i + 1][..k]
    requires k == |SORTED_FIELDS[i]| || SORTED_FIELDS[i][k] < SORTED_FIELDS[i + 1][k]
    requires StrictlySorted(SORTED_FIELDS[i + 1..])
    ensures StrictlySorted(SORTED_FIELDS[i..])
  {
    LessAt(SORTED_FIELDS[i], SORTED_FIELDS[i + 1], k);
    SuffixSorted(i);
  }

  lemma {:induction false} LastFieldsAreSorted()
    ensures StrictlySorted(SORTED_FIELDS[6..])
  {
    DiffersAt(11, 0);
    DiffersAt(10, 1);
    DiffersAt(9, 0);
    DiffersAt(8, 1);
    DiffersAt(7, 0);
    DiffersAt(6, 0);
  }

  lemma {:induction false} MiddleFieldsAreSorted()
    ensures StrictlySorted(SORTED_FIELDS[3..])
  {
    LastFieldsAreSorted();
    DiffersAt(5, 0);
    DiffersAt(4, 0);
    DiffersAt(3, 11);
  }

  lemma {:induction false} FieldsAreSorted()
    ensures StrictlySorted(SORTED_FIELDS)
  {
    MiddleFieldsAreSorted();
    DiffersAt(2, 0);
    DiffersAt(1, 1);
    DiffersAt(0, 0);
    assert SORTED_FIELDS[0..] == SORTED_FIELDS;
  }

  lemma {:induction false} FieldsAreAll()
    ensures Elements(SORTED_FIELDS) == AUDIT_ROW_FIELDS
  {
  }

  lemma {:induction false} NamesArePlain(i: nat)
    requires i < |SORTED_FIELDS|
    ensures AllPlain(SORTED_FIELDS[i])
  {
  }

  // ---------------------------------------------------------------------------
  // Rows
  // ---------------------------------------------------------------------------

  lemma {:induction false} NibbleIsPlain(c: char, n: int)
    requires 0 <= n && IsNibble(c, n)
    ensures IsPlain(c, true)
  {
  }

  lemma {:induction false} HexIsPlain(b: Bytes)
    ensures AllPlain(Hex(b))
  {
    forall i | 0 <= i < |Hex(b)| ensures IsPlain(Hex(b)[i], true) {
      HexAt(b, i / 2);
      NibbleIsPlain(Hex(b)[i], if i % 2 == 0 then b[i / 2] / 16 else b[i / 2] % 16);
    }
  }

  lemma {:induction false} HexForm(b: Bytes)
    ensures HexPrints(Json.Quote(Hex(b), false), b)
  {
    HexIsPlain(b);
    PlainQuote(Hex(b), false);
    var t := "\"" + Hex(b) + "\"";
    forall i | 0 <= i < |b| ensures IsNibble(t[1 + 2 * i], b[i] / 16) && IsNibble(t[2 + 2 * i], b[i] % 16) {
      HexAt(b, i);
    }
  }

  lemma {:induction false} FieldForm(key: string, c: Cell)
    requires FieldValue(key, c).Ok? && FieldValue(key, c).value.Encodable?
    ensures FieldPrints(Json.Print(FieldValue(key, c).value.v, false), c)
  {
    match c
    case SqlNull =>
    case SqlInteger(n) => IntTextPrints(n);
    case SqlText(s) => QuoteForm(s, false);
    case SqlBlob(b) => HexForm(b);
  }

  function ValueTexts(names: seq<string>, m: Json.Object): (texts: seq<string>)
    requires forall k :: k in names ==> k in m
    ensures |texts| == |names| && forall i :: 0 <= i < |names| ==> texts[i] == Json.Print(m[names[i]], false)
  {
    seq(|names|, i requires 0 <= i < |names| => Json.Print(m[names[i]], false))
  }

  lemma {:induction false} MemberIsNamed(name: string, v: Json.Value)
    requires AllPlain(name)
    ensures Json.Member(name, v, false) == "\"" + name + "\":" + Json.Print(v, false)
  {
    PlainQuote(name, false);
    assert "\"" + name + "\"" + (":" + Json.Print(v, false)) == "\"" + name + "\":" + Json.Print(v, false);
  }

  lemma {:induction false} MembersAreNamed(names: seq<string>, m: Json.Object)
    requires forall k :: k in names ==> k in m
    requires forall i :: 0 <= i < |names| ==> AllPlain(names[i])
    ensures MemberTexts(names, m, false) == NamedTexts(names, ValueTexts(names, m))
  {
    forall i | 0 <= i < |names| ensures MemberTexts(names, m, false)[i] == NamedTexts(names, ValueTexts(names, m))[i] {
      MemberIsNamed(names[i], m[names[i]]);
    }
  }

  lemma {:induction false} TextsPrint(texts: seq<string>, row: Row, m: Json.Object, names: seq<string>)
    requires Elements(names) == m.Keys == row.Keys
    requires |texts| == |names| && forall i :: 0 <= i < |names| ==> names[i] in m && texts[i] == Json.Print(m[names[i]], false)
    requires forall k :: k in row ==> FieldPrints(Json.Print(m[k], false), row[k])
    ensures FieldsPrint(texts, row, names)
  {
    forall i | 0 <= i < |names| ensures names[i] in row && FieldPrints(texts[i], row[names[i]]) {
      assert names[i] in row;
    }
  }

  lemma {:induction false} RowText(row: Row, m: Json.Object, names: seq<string>)
    requires StrictlySorted(names) && Elements(names) == m.Keys == row.Keys
    requires forall i :: 0 <= i < |names| ==> AllPlain(names[i])
    requires forall k :: k in row ==> FieldPrints(Json.Print(m[k], false), row[k])
    ensures RowPrints(Json.PrintObject(m, false), row, names)
  {
    ObjectText(m, false, names);
    MembersAreNamed(names, m);
    var texts := ValueTexts(names, m);
    TextsPrint(texts, row, m, names);
    assert Json.PrintObject(m, false) == Braced(names, texts);
  }

  lemma {:induction false} HexIsOne(t: string, u: string, b: Bytes)
    requires HexPrints(t, b) && HexPrints(u, b)
    ensures t == u
  {
    forall j | 0 <= j < |t| ensures t[j] == u[j] {
      if 0 < j < |t| - 1 {
        var i := (j - 1) / 2;
        NibbleIsOne(t[1 + 2 * i], u[1 + 2 * i], b[i] / 16);
        NibbleIsOne(t[2 + 2 * i], u[2 + 2 * i], b[i] % 16);
        assert j == 1 + 2 * i || j == 2 + 2 * i;
      }
    }
  }

  lemma {:induction false} FieldIsOne(t: string, u: string, c: Cell)
    requires FieldPrints(t, c) && FieldPrints(u, c)
    ensures t == u
  {
    match c
    case SqlNull =>
    case SqlInteger(n) => DecimalIsOne(t, u, n);
    case SqlText(s) => QuoteIsOne(t, u, s, false);
    case SqlBlob(b) => HexIsOne(t, u, b);
  }

  lemma {:induction false} FieldsAreOne(a: seq<string>, b: seq<string>, row: Row, names: seq<string>)
    requires FieldsPrint(a, row, names) && FieldsPrint(b, row, names)
    ensures a == b
  {
    forall i | 0 <= i < |names| ensures a[i] == b[i] {
      FieldIsOne(a[i], b[i], row[names[i]]);
    }
  }

  /** A row has one text. */
  lemma {:induction false} RowIsOne(t: string, u: string, row: Row, names: seq<string>)
    requires RowPrints(t, row, names) && RowPrints(u, row, names)
    ensures t == u
  {
    var a: seq<string> :| FieldsPrint(a, row, names) && t == Braced(names, a);
    var b: seq<string> :| FieldsPrint(b, row, names) && u == Braced(names, b);
    FieldsAreOne(a, b, row, names);
  }

  /** The canonical bytes of every row that serialises are the shortest encoding of its one text: the
      thirteen fields in code-point order between braces, each value in its one form. */
  lemma {:induction false} RowForm(row: Row)
    requires CanonicalBytes(row).Ok?
    ensures exists t: string :: RowPrints(t, row, SORTED_FIELDS) && Encodes(CanonicalBytes(row).value, t)
  {
    CanonicalIsDumps(row);
    var m := Encoded(Payload(row));
    forall k | k in row ensures FieldPrints(Json.Print(m[k], false), row[k]) {
      FieldForm(k, row[k]);
    }
    FieldsAreSorted();
    FieldsAreAll();
    forall i | 0 <= i < |SORTED_FIELDS| ensures AllPlain(SORTED_FIELDS[i]) {
      NamesArePlain(i);
    }
    RowText(row, m, SORTED_FIELDS);
    Utf8Form(Json.PrintObject(m, false));
  }

  /** And the only byte string of which this can be said. */
  lemma {:induction false} RowExact(row: Row, b: Bytes, t: string)
    requires CanonicalBytes(row).Ok? && RowPrints(t, row, SORTED_FIELDS) && Encodes(b, t)
    ensures CanonicalBytes(row) == Ok(b)
  {
    RowForm(row);
    var u: string :| RowPrints(u, row, SORTED_FIELDS) && Encodes(CanonicalBytes(row).value, u);
    RowIsOne(t, u, row, SORTED_FIELDS);
    EncodingIsOne(b, CanonicalBytes(row).value, t);
  }

  /** Which fields may be NULL and which are bytes, by name. */
  lemma {:induction false} FieldKinds(key: string, c: Cell)
    ensures FieldValue(key, SqlNull).Ok? <==>
            key == "caller_id" || key == "refusal_reason" || key == "ast_shape_hash" || key == "rule_id"
    ensures c.SqlBlob? && |c.b| == 32 && FieldValue(key, c).Ok? && FieldValue(key, c).value.Encodable? <==>
            c.SqlBlob? && |c.b| == 32 && (key == "ast_shape_hash" || key == "fingerprint")
  {
  }
}
