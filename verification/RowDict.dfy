/** The column-by-column copy that feeds the serialiser. */
module RowDict {
  import opened Canonical
  import opened Chain
  import opened Wrappers

  const ROW_COLUMNS: seq<string> := [
    "id", "occurred_at", "source_connection_id", "caller_id", "tool_name", "status", "refusal_reason",
    "cost_class", "pii_categories", "ast_shape_hash", "rule_id", "fingerprint", "fingerprint_version" ]

  /** What the SELECT returns: these columns and no others. */
  ghost predicate Selected(r: AuditRow) {
    forall c :: c in Columns(r) <==> c in ROW_COLUMNS
  }

  lemma {:induction false} FingerprintIsLate(i: nat)
    requires i < |ROW_COLUMNS| && ROW_COLUMNS[i] == "fingerprint"
    ensures "ast_shape_hash" in ROW_COLUMNS[..i]
  {
    assert ROW_COLUMNS[9] == "ast_shape_hash";
    assert i > 9;
    assert ROW_COLUMNS[..i][9] == "ast_shape_hash";
  }

  /** The columns copied so far are the normalised ones. */
  ghost predicate Copied(r: AuditRow, out: Row, names: seq<string>) {
    && (forall c :: c in out <==> c in names)
    && (forall c :: c in out ==> c in Columns(r) && Normalise(c, Columns(r)[c]) == Ok(out[c]))
  }

  lemma {:induction false} CopiedAll(r: AuditRow, out: Row)
    requires Selected(r) && Copied(r, out, ROW_COLUMNS)
    ensures CanonicalDict(r) == Ok(out)
  {
    var columns := Columns(r);
    assert forall c :: c in columns ==> ColumnError(columns, c).None? && Normalised(c, columns[c]) == out[c];
    assert out == map k | k in columns :: Normalised(k, columns[k]);
  }

  lemma {:induction false} CopyFails(r: AuditRow, out: Row, i: nat, e: Error)
    requires Selected(r) && i < |ROW_COLUMNS| && Copied(r, out, ROW_COLUMNS[..i])
    requires ROW_COLUMNS[i] in Columns(r) && Normalise(ROW_COLUMNS[i], Columns(r)[ROW_COLUMNS[i]]) == Err(e)
    ensures CanonicalDict(r) == Err(e)
  {
    if ROW_COLUMNS[i] == "fingerprint" {
      FingerprintIsLate(i);
      assert "ast_shape_hash" in out;
    }
  }

  lemma {:induction false} CopyOne(r: AuditRow, out: Row, names: seq<string>, i: nat, value: Cell)
    requires i < |names| && Copied(r, out, names[..i])
    requires names[i] in Columns(r) && Normalise(names[i], Columns(r)[names[i]]) == Ok(value)
    ensures Copied(r, out[names[i] := value], names[..i + 1])
  {
    assert names[..i + 1] == names[..i] + [names[i]];
  }

  method RowToCanonicalDict(r: AuditRow) returns (d: Result<Row, Error>)
    requires Selected(r)
    ensures d == CanonicalDict(r)
  {
    var columns := Columns(r);
    var out: Row := map[];
    for i := 0 to |ROW_COLUMNS|
      invariant Copied(r, out, ROW_COLUMNS[..i])
    {
      var column := ROW_COLUMNS[i];
      var value := columns[column];
      if column in BINARY && value != SqlNull {
        var bytes := ToBytes(value);
        if bytes.Err? {
          CopyFails(r, out, i, bytes.error);
          return Err(bytes.error);
        }
        value := SqlBlob(bytes.value);
      }
      CopyOne(r, out, ROW_COLUMNS, i, value);
      out := out[column := value];
    }
    assert ROW_COLUMNS[..|ROW_COLUMNS|] == ROW_COLUMNS;
    CopiedAll(r, out);
    return Ok(out);
  }

  /** The selected columns and the canonical fields are the same thirteen names. */
  lemma {:induction false} LockStep(r: AuditRow)
    requires Selected(r)
    ensures Columns(r).Keys == AUDIT_ROW_FIELDS
  {
    assert (set c | c in ROW_COLUMNS) == AUDIT_ROW_FIELDS;
  }
}
