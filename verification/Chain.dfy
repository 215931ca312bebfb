/** The hash chain over stored audit rows and the walk that verifies it. */
module Chain {
  import opened Bytes
  import opened Canonical
  import opened Encodings
  import opened Wrappers

  const CHAIN_HASH_SIZE: nat := 32

  function ComputeChainHash(H: HashFunction, prevChainHash: Bytes, canonicalRow: Bytes): Result<Bytes, Error> {
    if |prevChainHash| != CHAIN_HASH_SIZE then Err(ValueError) else Ok(H(prevChainHash + canonicalRow))
  }

  /** One stored row: the rowid, the other canonical columns, and the stored chain hash. */
  datatype AuditRow = AuditRow(id: int, content: Row, chainHash: Cell)

  /** The table in `ORDER BY id ASC` order. */
  predicate ValidTable(rows: seq<AuditRow>) {
    forall i, j :: 0 <= i < j < |rows| ==> rows[i].id < rows[j].id
  }

  /** Python's `bytes(value)` on a SQLite value: an integer gives that many zero bytes. */
  function ToBytes(c: Cell): Result<Bytes, Error> {
    match c
    case SqlBlob(b) => Ok(b)
    case SqlInteger(n) => if n < 0 then Err(ValueError) else Ok(Zeros(n))
    case SqlText(_) => Err(TypeError)
    case SqlNull => Err(TypeError)
  }

  lemma {:induction false} BytesOfInteger(n: int, b: Bytes)
    ensures ToBytes(SqlInteger(n)) == Ok(b) <==> |b| == n && forall i :: 0 <= i < |b| ==> b[i] == 0
    ensures n < 0 ==> ToBytes(SqlInteger(n)) == Err(ValueError)
  {
    if |b| == n && (forall i :: 0 <= i < |b| ==> b[i] == 0) {
      assert b == Zeros(n);
    }
  }

  /** One column as `_row_to_canonical_dict` copies it. */
  function Normalise(column: string, value: Cell): Result<Cell, Error> {
    if column in BINARY && value != SqlNull then
      match ToBytes(value)
      case Ok(b) => Ok(SqlBlob(b))
      case Err(e) => Err(e)
    else Ok(value)
  }

  function Normalised(column: string, value: Cell): Cell {
    match Normalise(column, value) case Ok(c) => c case Err(_) => value
  }

  function Columns(r: AuditRow): Row {
    r.content["id" := SqlInteger(r.id)]
  }

  function ColumnError(columns: Row, column: string): Option<Error> {
    if column !in columns then None
    else
      match Normalise(column, columns[column])
      case Ok(_) => None
      case Err(e) => Some(e)
  }

  /** `ast_shape_hash` is converted before `fingerprint`, so its exception wins. */
  function CanonicalDict(r: AuditRow): Result<Row, Error> {
    var columns := Columns(r);
    match ColumnError(columns, "ast_shape_hash")
    case Some(e) => Err(e)
    case None =>
      match ColumnError(columns, "fingerprint")
      case Some(e) => Err(e)
      case None => Ok(map k | k in columns :: Normalised(k, columns[k]))
  }

  /** The bytes hashed for a row, or the exception raised on the way. */
  function RowBytes(r: AuditRow): Result<Bytes, Error> {
    match CanonicalDict(r)
    case Err(e) => Err(e)
    case Ok(d) => CanonicalBytes(d)
  }

  datatype Expected = Digest(hex: string) | CanonicalisationError

  datatype ChainMismatch = ChainMismatch(rowId: int, expected: Expected, actualHex: string)

  /** What a generator run leaves behind: everything yielded, then possibly an exception. */
  datatype Walk = Walk(mismatches: seq<ChainMismatch>, raised: Option<Error>)

  datatype RowCheck = Passes | Fails(mismatch: ChainMismatch) | Raises(error: Error)

  /** One round of the loop for the previous stored hash `prev`. */
  function CheckRow(H: HashFunction, prev: Bytes, r: AuditRow): RowCheck {
    match ToBytes(r.chainHash)
    case Err(e) => Raises(e)
    case Ok(actual) =>
      match RowBytes(r)
      case Err(ValueError) => Fails(ChainMismatch(r.id, CanonicalisationError, Hex(actual)))
      case Err(TypeError) => Raises(TypeError)
      case Ok(canonical) =>
        match ComputeChainHash(H, prev, canonical)
        case Err(e) => Raises(e)
        case Ok(expected) =>
          if expected == actual then Passes
          else Fails(ChainMismatch(r.id, Digest(Hex(expected)), Hex(actual)))
  }

  /** The stored hash, the baseline for the next row (empty where `bytes()` would raise). */
  function StoredHash(r: AuditRow): Bytes {
    match ToBytes(r.chainHash) case Ok(b) => b case Err(_) => []
  }

  /** `first` was yielded before the walk `rest` went on. */
  function Then(first: seq<ChainMismatch>, rest: Walk): Walk {
    Walk(first + rest.mismatches, rest.raised)
  }

  /** The walk with `full=True`. */
  function FullWalk(H: HashFunction, prev: Bytes, rows: seq<AuditRow>): Walk
    decreases |rows|, H
  {
    if rows == [] then Walk([], None)
    else
      match CheckRow(H, prev, rows[0])
      case Raises(e) => Walk([], Some(e))
      case Passes => FullWalk(H, StoredHash(rows[0]), rows[1..])
      case Fails(m) => Then([m], FullWalk(H, StoredHash(rows[0]), rows[1..]))
  }

  lemma {:induction false} WalkStep(H: HashFunction, prev: Bytes, rows: seq<AuditRow>, i: nat, first: seq<ChainMismatch>)
    requires i < |rows|
    ensures Then(first, FullWalk(H, prev, rows[i..])) ==
            match CheckRow(H, prev, rows[i])
            case Raises(e) => Walk(first, Some(e))
            case Passes => Then(first, FullWalk(H, StoredHash(rows[i]), rows[i + 1..]))
            case Fails(m) => Then(first + [m], FullWalk(H, StoredHash(rows[i]), rows[i + 1..]))
  {
    assert rows[i..][0] == rows[i] && rows[i..][1..] == rows[i + 1..];
    var rest := FullWalk(H, StoredHash(rows[i]), rows[i + 1..]);
    match CheckRow(H, prev, rows[i])
    case Raises(_) => assert first + [] == first;
    case Passes =>
    case Fails(m) => assert first + ([m] + rest.mismatches) == (first + [m]) + rest.mismatches;
  }

  /** The fail-fast walk: what was seen before, and at, the first mismatch. */
  function FirstOnly(w: Walk): Walk {
    if w.mismatches == [] then w else Walk(w.mismatches[..1], None)
  }

  function WalkFrom(H: HashFunction, prev: Bytes, rows: seq<AuditRow>, full: bool): Walk {
    if full then FullWalk(H, prev, rows) else FirstOnly(FullWalk(H, prev, rows))
  }

  /** `SELECT chain_hash ... WHERE id = ?` */
  function FindRow(rows: seq<AuditRow>, id: int): (r: Option<AuditRow>)
    ensures r.Some? ==> r.value in rows && r.value.id == id
    ensures r.None? ==> forall i :: 0 <= i < |rows| ==> rows[i].id != id
  {
    if rows == [] then None else if rows[0].id == id then Some(rows[0]) else FindRow(rows[1..], id)
  }

  /** `SELECT ... WHERE id > ? ORDER BY id ASC` */
  function After(rows: seq<AuditRow>, id: int): seq<AuditRow> {
    if rows == [] then [] else if rows[0].id > id then [rows[0]] + After(rows[1..], id) else After(rows[1..], id)
  }

  /** What the whole call yields and raises, in every mode. */
  function WalkResult(H: HashFunction, table: seq<AuditRow>, full: bool, startAfterRowId: Option<int>): Walk {
    match startAfterRowId
    case None => WalkFrom(H, GENESIS_CHAIN_HASH, table, full)
    case Some(id) =>
      match FindRow(table, id)
      case None => Walk([], None)
      case Some(anchor) =>
        match ToBytes(anchor.chainHash)
        case Err(e) => Walk([], Some(e))
        case Ok(prev) => WalkFrom(H, prev, After(table, id), full)
  }

  /** One round of the loop body. */
  method CheckStored(H: HashFunction, prev: Bytes, row: AuditRow) returns (c: RowCheck)
    ensures c == CheckRow(H, prev, row)
  {
    var actual := ToBytes(row.chainHash);
    if actual.Err? {
      return Raises(actual.error);
    }
    var canonical := RowBytes(row);
    if canonical.Err? {
      if canonical.error == TypeError {
        return Raises(TypeError);
      }
      return Fails(ChainMismatch(row.id, CanonicalisationError, Hex(actual.value)));
    }
    var expected := ComputeChainHash(H, prev, canonical.value);
    if expected.Err? {
      return Raises(expected.error);
    }
    if expected.value != actual.value {
      return Fails(ChainMismatch(row.id, Digest(Hex(expected.value)), Hex(actual.value)));
    }
    return Passes;
  }

  method WalkChain(H: HashFunction, table: seq<AuditRow>, full: bool, startAfterRowId: Option<int>)
    returns (w: Walk)
    ensures w == WalkResult(H, table, full, startAfterRowId)
  {
    var prevChain: Bytes := GENESIS_CHAIN_HASH;
    var cursor := table;
    if startAfterRowId.Some? {
      var anchor := FindRow(table, startAfterRowId.value);
      if anchor.None? {
        return Walk([], None);
      }
      var stored := ToBytes(anchor.value.chainHash);
      if stored.Err? {
        return Walk([], Some(stored.error));
      }
      prevChain := stored.value;
      cursor := After(table, startAfterRowId.value);
    }
    ghost var whole := FullWalk(H, prevChain, cursor);
    var yielded: seq<ChainMismatch> := [];
    for i := 0 to |cursor|
      invariant whole == Then(yielded, FullWalk(H, prevChain, cursor[i..]))
      invariant !full ==> yielded == []
    {
      var check := CheckStored(H, prevChain, cursor[i]);
      WalkStep(H, prevChain, cursor, i, yielded);
      if check.Raises? {
        return Walk(yielded, Some(check.error));
      }
      if check.Fails? {
        yielded := yielded + [check.mismatch];
        if !full {
          return Walk(yielded, None);
        }
      }
      prevChain := StoredHash(cursor[i]);
    }
    return Walk(yielded, None);
  }
}
