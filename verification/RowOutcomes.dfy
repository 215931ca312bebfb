/** Which stored rows serialise, and which stop the walk, told from their cells. */
module RowOutcomes {
  import opened Bytes
  import opened Canonical
  import opened Chain
  import opened Encodings
  import opened Wrappers

  /** `bytes(value)` succeeds. */
  predicate Readable(c: Cell) {
    c.SqlBlob? || (c.SqlInteger? && c.n >= 0)
  }

  /** ... and gives 32 bytes. */
  predicate Reads32(c: Cell) {
    (c.SqlBlob? && |c.b| == 32) || c == SqlInteger(32)
  }

  lemma {:induction false} ReadableIff(c: Cell)
    ensures Readable(c) <==> ToBytes(c).Ok?
    ensures Reads32(c) <==> ToBytes(c).Ok? && |ToBytes(c).value| == 32
  {
  }

  /** The thirteen columns, NULL only where allowed, and 32 bytes in the binary ones. */
  predicate FieldsFit(r: AuditRow) {
    && Columns(r).Keys == AUDIT_ROW_FIELDS
    && (forall k :: k in Columns(r) && Columns(r)[k] == SqlNull ==> k in NULLABLE)
    && (forall k :: k in Columns(r) && k in BINARY && Columns(r)[k] != SqlNull ==> Reads32(Columns(r)[k]))
  }

  predicate BlobInText(r: AuditRow) {
    exists k :: k in Columns(r) && k !in BINARY && Columns(r)[k].SqlBlob?
  }

  predicate TextIn(r: AuditRow, column: string) {
    column in Columns(r) && Columns(r)[column].SqlText?
  }

  predicate NegativeIn(r: AuditRow, column: string) {
    column in Columns(r) && Columns(r)[column].SqlInteger? && Columns(r)[column].n < 0
  }

  predicate Serialises(r: AuditRow) {
    FieldsFit(r) && !BlobInText(r)
  }

  /** The exceptions the walk does not catch. */
  predicate Uncaught(r: AuditRow) {
    || TextIn(r, "ast_shape_hash")
    || (TextIn(r, "fingerprint") && !NegativeIn(r, "ast_shape_hash"))
    || (FieldsFit(r) && BlobInText(r))
  }

  lemma {:induction false} DictRaises(r: AuditRow)
    ensures CanonicalDict(r) == Err(TypeError) <==>
            TextIn(r, "ast_shape_hash") || (TextIn(r, "fingerprint") && !NegativeIn(r, "ast_shape_hash"))
    ensures CanonicalDict(r).Ok? <==>
            !TextIn(r, "ast_shape_hash") && !NegativeIn(r, "ast_shape_hash")
            && !TextIn(r, "fingerprint") && !NegativeIn(r, "fingerprint")
  {
  }

  /** Column by column, the normalised dict fits where the cells do. */
  lemma {:induction false} DictFits(r: AuditRow)
    requires CanonicalDict(r).Ok?
    ensures var d := CanonicalDict(r).value;
            && d.Keys == Columns(r).Keys
            && forall k :: k in d ==>
                 && (d[k] == SqlNull <==> Columns(r)[k] == SqlNull)
                 && (k !in BINARY ==> d[k] == Columns(r)[k])
                 && (k in BINARY && d[k] != SqlNull ==>
                       d[k].SqlBlob? && (|d[k].b| == 32 <==> Reads32(Columns(r)[k])))
  {
    var columns, d := Columns(r), CanonicalDict(r).value;
    assert ColumnError(columns, "ast_shape_hash").None? && ColumnError(columns, "fingerprint").None?;
    forall k | k in d ensures Normalise(k, columns[k]) == Ok(d[k]) {
      assert k in BINARY ==> ColumnError(columns, k).None?;
    }
    forall k | k in d && k in BINARY && columns[k] != SqlNull
      ensures d[k].SqlBlob? && (|d[k].b| == 32 <==> Reads32(columns[k]))
    {
      ReadableIff(columns[k]);
    }
  }

  lemma {:induction false} FittingDict(r: AuditRow)
    requires CanonicalDict(r).Ok?
    ensures RowBytes(r).Ok? <==> Serialises(r)
    ensures RowBytes(r) == Err(TypeError) <==> FieldsFit(r) && BlobInText(r)
  {
    var d := CanonicalDict(r).value;
    DictFits(r);
    Outcomes(d);
    assert (exists k :: k in d && k !in BINARY && d[k].SqlBlob?) <==> BlobInText(r) by {
      if k :| k in Columns(r) && k !in BINARY && Columns(r)[k].SqlBlob? {
        assert d[k].SqlBlob?;
      }
    }
  }

  lemma {:induction false} UnfitDict(r: AuditRow)
    requires CanonicalDict(r).Err?
    ensures !FieldsFit(r)
  {
    DictRaises(r);
  }

  /** Exactly which rows serialise, and which raise past the walk. */
  lemma {:induction false} RowOutcome(r: AuditRow)
    ensures RowBytes(r).Ok? <==> Serialises(r)
    ensures RowBytes(r) == Err(TypeError) <==> Uncaught(r)
  {
    DictRaises(r);
    if CanonicalDict(r).Ok? {
      FittingDict(r);
    } else {
      UnfitDict(r);
    }
  }

  /** A row ends the walk iff its hash cannot be read, or it raises uncaught, or it serialises behind a
      baseline that is not 32 bytes wide. */
  lemma {:induction false} RaisesIff(H: HashFunction, prev: Bytes, r: AuditRow)
    ensures CheckRow(H, prev, r).Raises? <==>
            !Readable(r.chainHash) || Uncaught(r) || (Serialises(r) && |prev| != 32)
  {
    ReadableIff(r.chainHash);
    RowOutcome(r);
  }

  /** A row passes iff the hash of baseline and bytes is what its hash cell reads as. */
  lemma {:induction false} PassesIff(H: HashFunction, prev: Bytes, r: AuditRow)
    ensures CheckRow(H, prev, r) == Passes <==>
            match RowBytes(r)
            case Ok(bytes) => |prev| == 32 && ToBytes(r.chainHash) == Ok(H(prev + bytes))
            case Err(_) => false
  {
  }

  /** What a report says: the row's id, in hexadecimal the hash it stores, and the hash it should store,
      or that it has no canonical bytes. */
  predicate Reports(H: HashFunction, prev: Bytes, r: AuditRow, m: ChainMismatch) {
    match (ToBytes(r.chainHash), RowBytes(r))
    case (Ok(actual), Ok(bytes)) =>
      && |prev| == 32 && H(prev + bytes) != actual
      && m == ChainMismatch(r.id, Digest(Hex(H(prev + bytes))), Hex(actual))
    case (Ok(actual), Err(e)) => e == ValueError && m == ChainMismatch(r.id, CanonicalisationError, Hex(actual))
    case _ => false
  }

  lemma {:induction false} FailsIff(H: HashFunction, prev: Bytes, r: AuditRow, m: ChainMismatch)
    ensures CheckRow(H, prev, r) == Fails(m) <==> Reports(H, prev, r, m)
  {
  }
}
