/** The canonical bytes of one audit row: strict field set, nullability and width checks,
    sorted compact JSON. */
module Canonical {
  import opened Bytes
  import opened Encodings
  import opened Wrappers
  import Json

  /** A value as SQLite hands it over.  REAL is not modelled. */
  datatype Cell = SqlNull | SqlInteger(n: int) | SqlText(s: string) | SqlBlob(b: Bytes)

  type Row = map<string, Cell>

  /** The Python exception a call ends in. */
  datatype Error = ValueError | TypeError

  const AUDIT_ROW_FIELDS: set<string> := {
    "id", "occurred_at", "source_connection_id", "caller_id", "tool_name", "status", "refusal_reason",
    "cost_class", "pii_categories", "ast_shape_hash", "rule_id", "fingerprint", "fingerprint_version" }

  const NULLABLE: set<string> := {"caller_id", "refusal_reason", "ast_shape_hash", "rule_id"}
  const BINARY: set<string> := {"ast_shape_hash", "fingerprint"}

  const FINGERPRINT_BYTES: nat := 32
  const AST_SHAPE_HASH_BYTES: nat := 32

  function HexBytes(field: string, value: Cell): Result<string, Error> {
    if !value.SqlBlob? then Err(ValueError)
    else
      var expected := if field == "ast_shape_hash" then AST_SHAPE_HASH_BYTES else FINGERPRINT_BYTES;
      if |value.b| != expected then Err(ValueError) else Ok(Hex(value.b))
  }

  /** What the payload dict holds for one field: a JSON value, or bytes that JSON cannot carry. */
  datatype PyValue = Encodable(v: Json.Value) | PyBytes(b: Bytes)

  /** The value stored in the payload, or the exception raised for this field. */
  function FieldValue(key: string, value: Cell): Result<PyValue, Error> {
    if value == SqlNull then
      if key !in NULLABLE then Err(ValueError) else Ok(Encodable(Json.Null))
    else if key in BINARY then
      match HexBytes(key, value)
      case Err(e) => Err(e)
      case Ok(h) => Ok(Encodable(Json.String(h)))
    else
      match value
      case SqlInteger(n) => Ok(Encodable(Json.Number(n)))
      case SqlText(s) => Ok(Encodable(Json.String(s)))
      case SqlBlob(b) => Ok(PyBytes(b))
  }

  /** `json.dumps(...).encode("utf-8")`: bytes values raise `TypeError`. */
  function DumpsPayload(payload: map<string, PyValue>): Result<Bytes, Error> {
    if exists k :: k in payload && payload[k].PyBytes? then Err(TypeError)
    else Ok(Json.Dumps(map k | k in payload :: payload[k].v, false))
  }

  function Payload(row: Row): map<string, PyValue>
    requires forall k :: k in row ==> FieldValue(k, row[k]).Ok?
  {
    map k | k in row :: FieldValue(k, row[k]).value
  }

  predicate FieldsPass(row: Row) {
    row.Keys == AUDIT_ROW_FIELDS && forall k :: k in row ==> FieldValue(k, row[k]).Ok?
  }

  /** What `canonical_audit_row` returns or raises, with no mention of any order of fields. */
  function CanonicalBytes(row: Row): Result<Bytes, Error> {
    if !FieldsPass(row) then Err(ValueError)
    else DumpsPayload(Payload(row))
  }

  /** The dict is visited in an arbitrary order; neither the bytes nor the kind of exception depend on it. */
  method CanonicalAuditRow(row: Row) returns (r: Result<Bytes, Error>)
    ensures r == CanonicalBytes(row)
  {
    var missing := AUDIT_ROW_FIELDS - row.Keys;
    if missing != {} {
      assert !(row.Keys == AUDIT_ROW_FIELDS);
      return Err(ValueError);
    }
    var extra := row.Keys - AUDIT_ROW_FIELDS;
    if extra != {} {
      assert !(row.Keys == AUDIT_ROW_FIELDS);
      return Err(ValueError);
    }
    assert row.Keys == AUDIT_ROW_FIELDS;
    var payload: map<string, PyValue> := map[];
    var todo := AUDIT_ROW_FIELDS;
    while todo != {}
      invariant todo <= row.Keys && payload.Keys == row.Keys - todo
      invariant forall k :: k in payload ==> Ok(payload[k]) == FieldValue(k, row[k])
      decreases todo
    {
      var key :| key in todo;
      todo := todo - {key};
      var value := row[key];
      if value == SqlNull {
        if key !in NULLABLE {
          return Err(ValueError);
        }
        payload := payload[key := Encodable(Json.Null)];
      } else if key in BINARY {
        var hex := HexBytes(key, value);
        if hex.Err? {
          return Err(ValueError);
        }
        payload := payload[key := Encodable(Json.String(hex.value))];
      } else {
        payload := payload[key := match value case SqlInteger(n) => Encodable(Json.Number(n))
                                              case SqlText(s) => Encodable(Json.String(s))
                                              case SqlBlob(b) => PyBytes(b)];
      }
    }
    assert payload == Payload(row);
    return DumpsPayload(payload);
  }

  // ---------------------------------------------------------------------------
  // Reading a row back
  // ---------------------------------------------------------------------------

  function ReadField(key: string, v: Json.Value): Option<Cell> {
    match v
    case Null => Some(SqlNull)
    case Number(n) => Some(SqlInteger(n))
    case String(s) =>
      if key in BINARY then
        match UnHex(s)
        case None => None
        case Some(b) => Some(SqlBlob(b))
      else Some(SqlText(s))
    case _ => None
  }

  function ReadFields(m: Json.Object): Option<Row> {
    if exists k :: k in m && ReadField(k, m[k]).None? then None
    else Some(map k | k in m :: ReadField(k, m[k]).value)
  }

  function ReadRow(b: Bytes): Option<Row> {
    match Json.Loads(b)
    case None => None
    case Some(m) => ReadFields(m)
  }

  lemma {:induction false} ReadFieldInverts(key: string, value: Cell)
    requires FieldValue(key, value).Ok? && FieldValue(key, value).value.Encodable?
    ensures ReadField(key, FieldValue(key, value).value.v) == Some(value)
  {
    if value.SqlBlob? { HexRoundTrip(value.b); }
  }

  function Encoded(payload: map<string, PyValue>): Json.Object
    requires forall k :: k in payload ==> payload[k].Encodable?
  {
    map k | k in payload :: payload[k].v
  }

  lemma {:induction false} ReadEncoded(row: Row)
    requires forall k :: k in row ==> FieldValue(k, row[k]).Ok?
    requires forall k :: k in row ==> Payload(row)[k].Encodable?
    ensures ReadFields(Encoded(Payload(row))) == Some(row)
  {
    var m := Encoded(Payload(row));
    assert m.Keys == row.Keys;
    forall k | k in row ensures ReadField(k, m[k]) == Some(row[k]) {
      ReadFieldInverts(k, row[k]);
    }
    assert (map k | k in m :: ReadField(k, m[k]).value) == row;
  }

  lemma {:induction false} CanonicalIsDumps(row: Row)
    requires CanonicalBytes(row).Ok?
    ensures forall k :: k in row ==> FieldValue(k, row[k]).Ok? && Payload(row)[k].Encodable?
    ensures CanonicalBytes(row) == Ok(Json.Dumps(Encoded(Payload(row)), false))
  {
    var payload := Payload(row);
    assert DumpsPayload(payload) == CanonicalBytes(row);
    assert (map k | k in payload :: payload[k].v) == Encoded(payload);
  }

  /** Every row that serialises is recovered field by field from its bytes: null versus the text
      "null", quotes and control characters, adjacent fields and binary fields included. */
  lemma {:induction false} RoundTrip(row: Row)
    requires CanonicalBytes(row).Ok?
    ensures ReadRow(CanonicalBytes(row).value) == Some(row)
  {
    CanonicalIsDumps(row);
    ReadEncoded(row);
    Json.RoundTrip(Encoded(Payload(row)), false);
  }

  /** Different rows have different bytes. */
  lemma {:induction false} Injective(a: Row, b: Row)
    requires CanonicalBytes(a).Ok? && CanonicalBytes(a) == CanonicalBytes(b)
    ensures a == b
  {
    RoundTrip(a);
    RoundTrip(b);
  }

  /** Exactly which rows serialise, and which exception the others raise. */
  lemma {:induction false} Outcomes(row: Row)
    ensures CanonicalBytes(row).Ok? <==>
            && row.Keys == AUDIT_ROW_FIELDS
            && (forall k :: k in row && row[k] == SqlNull ==> k in NULLABLE)
            && (forall k :: k in row && k in BINARY && row[k] != SqlNull ==> row[k].SqlBlob? && |row[k].b| == 32)
            && (forall k :: k in row && k !in BINARY ==> !row[k].SqlBlob?)
    ensures CanonicalBytes(row) == Err(TypeError) <==>
            && row.Keys == AUDIT_ROW_FIELDS
            && (forall k :: k in row && row[k] == SqlNull ==> k in NULLABLE)
            && (forall k :: k in row && k in BINARY && row[k] != SqlNull ==> row[k].SqlBlob? && |row[k].b| == 32)
            && (exists k :: k in row && k !in BINARY && row[k].SqlBlob?)
  {
    forall k | k in row
      ensures FieldValue(k, row[k]).Ok? <==>
              && (row[k] == SqlNull ==> k in NULLABLE)
              && (k in BINARY && row[k] != SqlNull ==> row[k].SqlBlob? && |row[k].b| == 32)
      ensures FieldValue(k, row[k]).Ok? ==>
              (FieldValue(k, row[k]).value.PyBytes? <==> k !in BINARY && row[k].SqlBlob?)
    {
    }
    if FieldsPass(row) {
      var payload := Payload(row);
      assert payload.Keys == row.Keys;
      if k :| k in row && k !in BINARY && row[k].SqlBlob? {
        assert payload[k].PyBytes?;
      }
    }
  }
}
