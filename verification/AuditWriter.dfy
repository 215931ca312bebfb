/** The writer that extends the chain, and what several of them on one file do to it. */
module AuditWriting {
  import opened Bytes
  import opened Canonical
  import opened Chain
  import opened ChainSecurity
  import opened ChainTampering
  import opened Encodings
  import opened Wrappers

  /** `(max(id) or 0) + 1` on a table ordered by id. */
  function NextId(rows: seq<AuditRow>): int {
    if rows == [] then 1 else rows[|rows| - 1].id + 1
  }

  /** The row inserted for the bound columns `content`, or the exception that stops the insert. */
  function NewRow(H: HashFunction, tail: Bytes, rows: seq<AuditRow>, content: Row): Result<AuditRow, Error> {
    var id := NextId(rows);
    match CanonicalBytes(content["id" := SqlInteger(id)])
    case Err(e) => Err(e)
    case Ok(canonical) =>
      match ComputeChainHash(H, tail, canonical)
      case Err(e) => Err(e)
      case Ok(h) => Ok(AuditRow(id, content, SqlBlob(h)))
  }

  /** Why a write did not commit: an exception before the INSERT, or the INSERT itself refused, by a
      constraint of the table or a locked file. */
  datatype WriteError = Raised(error: Error) | Refused

  /** The row a write commits.  Whether SQLite would refuse the INSERT is not the writer's to say. */
  function Committed(H: HashFunction, tail: Bytes, rows: seq<AuditRow>, content: Row, refused: bool): Result<AuditRow, WriteError> {
    match NewRow(H, tail, rows, content)
    case Err(e) => Err(Raised(e))
    case Ok(r) => if refused then Err(Refused) else Ok(r)
  }

  /** `_load_tail_chain_hash` */
  function LoadTail(rows: seq<AuditRow>): Result<Bytes, Error> {
    if rows == [] then Ok(GENESIS_CHAIN_HASH)
    else
      match ToBytes(rows[|rows| - 1].chainHash)
      case Err(e) => Err(e)
      case Ok(raw) => if |raw| != CHAIN_HASH_SIZE then Err(ValueError) else Ok(raw)
  }

  lemma {:induction false} TailMeans(rows: seq<AuditRow>, tail: Bytes)
    ensures LoadTail(rows) == Ok(tail) <==>
            |tail| == 32 && if rows == [] then forall i :: 0 <= i < 32 ==> tail[i] == 0
                            else ToBytes(rows[|rows| - 1].chainHash) == Ok(tail)
  {
    if rows == [] && |tail| == 32 && (forall i :: 0 <= i < 32 ==> tail[i] == 0) {
      assert tail == GENESIS_CHAIN_HASH;
    }
  }

  /** The one row a write can commit, and when it does. */
  lemma {:induction false} CommitsIff(H: HashFunction, tail: Bytes, rows: seq<AuditRow>, content: Row, refused: bool, r: AuditRow)
    ensures Committed(H, tail, rows, content, refused) == Ok(r) <==>
            var bytes := CanonicalBytes(content["id" := SqlInteger(r.id)]);
            && !refused && |tail| == 32 && bytes.Ok?
            && r.id == (if rows == [] then 1 else rows[|rows| - 1].id + 1)
            && r.content == content && r.chainHash == SqlBlob(H(tail + bytes.value))
  {
  }

  /** And what stops one: the exception of the serialiser, a tail that is not 32 bytes wide, or SQLite. */
  lemma {:induction false} WriteFailsIff(H: HashFunction, tail: Bytes, rows: seq<AuditRow>, content: Row, refused: bool, id: int)
    requires id == if rows == [] then 1 else rows[|rows| - 1].id + 1
    ensures var bytes, r := CanonicalBytes(content["id" := SqlInteger(id)]), Committed(H, tail, rows, content, refused);
            && (forall e :: r == Err(Raised(e)) <==> bytes == Err(e) || (bytes.Ok? && |tail| != 32 && e == ValueError))
            && (r == Err(Refused) <==> refused && bytes.Ok? && |tail| == 32)
  {
  }

  lemma {:induction false} AppendStaysValid(rows: seq<AuditRow>, row: AuditRow)
    requires ValidTable(rows) && row.id == NextId(rows)
    ensures ValidTable(rows + [row])
  {
    var all := rows + [row];
    forall i, j | 0 <= i < j < |all| ensures all[i].id < all[j].id {
      if j == |rows| && i < |rows| - 1 { assert rows[i].id < rows[|rows| - 1].id; }
    }
  }

  /** What the writer hashed is what the verifier recomputes from the stored cells. */
  lemma {:induction false} VerifierReadsTheSame(r: AuditRow)
    requires CanonicalBytes(Columns(r)).Ok?
    ensures RowBytes(r) == CanonicalBytes(Columns(r))
  {
    var columns := Columns(r);
    Outcomes(columns);
    assert ColumnError(columns, "ast_shape_hash").None?;
    assert ColumnError(columns, "fingerprint").None?;
    DictIsColumns(r);
  }

  /** Behind any table a fresh row passes from its writer's cached tail. */
  lemma {:induction false} NewRowPasses(H: HashFunction, tail: Bytes, rows: seq<AuditRow>, content: Row)
    requires NewRow(H, tail, rows, content).Ok?
    ensures var r := NewRow(H, tail, rows, content).value;
            && r.id == NextId(rows) && |tail| == 32
            && RowBytes(r).Ok? && ToBytes(r.chainHash).Ok? && StoredHash(r) == H(tail + Content(r))
  {
    VerifierReadsTheSame(NewRow(H, tail, rows, content).value);
  }

  function StaleMismatch(H: HashFunction, base: Bytes, r: AuditRow): ChainMismatch {
    ChainMismatch(r.id, Digest(Hex(H(base + Content(r)))), Hex(StoredHash(r)))
  }

  lemma {:induction false} OneRow(H: HashFunction, base: Bytes, r: AuditRow)
    requires RowBytes(r).Ok? && ToBytes(r.chainHash).Ok? && |base| == 32
    ensures FullWalk(H, base, [r]) ==
            Walk(if H(base + Content(r)) == StoredHash(r) then [] else [StaleMismatch(H, base, r)], None)
  {
    WalkCons(H, base, r, []);
    assert [r] + [] == [r];
    PassMeans(H, base, r);
  }

  /** The walk over a table grown by one fresh row. */
  lemma {:induction false} AppendReport(H: HashFunction, tail: Bytes, rows: seq<AuditRow>, content: Row)
    requires NewRow(H, tail, rows, content).Ok? && |LastHash(GENESIS_CHAIN_HASH, rows)| == 32
    ensures var r, base := NewRow(H, tail, rows, content).value, LastHash(GENESIS_CHAIN_HASH, rows);
            FullWalk(H, GENESIS_CHAIN_HASH, rows + [r]) ==
            Sequel(FullWalk(H, GENESIS_CHAIN_HASH, rows),
                   Walk(if H(base + Content(r)) == StoredHash(r) then [] else [StaleMismatch(H, base, r)], None))
  {
    var r, base := NewRow(H, tail, rows, content).value, LastHash(GENESIS_CHAIN_HASH, rows);
    NewRowPasses(H, tail, rows, content);
    Compose(H, GENESIS_CHAIN_HASH, rows, [r]);
    OneRow(H, base, r);
  }

  predicate Synced(tail: Bytes, rows: seq<AuditRow>) {
    ValidTable(rows) && LoadTail(rows) == Ok(tail)
  }

  predicate CleanLog(H: HashFunction, rows: seq<AuditRow>) {
    Clean(H, GENESIS_CHAIN_HASH, rows)
  }

  lemma {:induction false} SyncedTail(tail: Bytes, rows: seq<AuditRow>)
    requires Synced(tail, rows)
    ensures tail == LastHash(GENESIS_CHAIN_HASH, rows) && |tail| == 32
  {
  }

  lemma {:induction false} SequelAssoc(w: Walk, a: seq<ChainMismatch>, b: seq<ChainMismatch>)
    ensures Sequel(Sequel(w, Walk(a, None)), Walk(b, None)) == Sequel(w, Walk(a + b, None))
    ensures Sequel(w, Walk([], None)) == w
  {
    assert w.mismatches + (a + b) == (w.mismatches + a) + b;
    assert w.mismatches + [] == w.mismatches;
  }

  lemma {:induction false} CommitSyncs(H: HashFunction, tail: Bytes, rows: seq<AuditRow>, content: Row, r: AuditRow)
    requires ValidTable(rows) && NewRow(H, tail, rows, content) == Ok(r)
    ensures ValidTable(rows + [r]) && Synced(StoredHash(r), rows + [r])
  {
    AppendStaysValid(rows, r);
    NewRowPasses(H, tail, rows, content);
    assert (rows + [r])[|rows + [r]| - 1] == r;
  }

  /** A commit keeps the table ordered, an up-to-date tail up to date and, with such a tail, a clean log clean. */
  lemma {:induction false} CommitKeeps(H: HashFunction, tail: Bytes, rows: seq<AuditRow>, content: Row, r: AuditRow)
    requires ValidTable(rows) && NewRow(H, tail, rows, content) == Ok(r)
    ensures ValidTable(rows + [r]) && Synced(StoredHash(r), rows + [r])
    ensures Synced(tail, rows) && CleanLog(H, rows) ==> CleanLog(H, rows + [r])
  {
    CommitSyncs(H, tail, rows, content, r);
    if Synced(tail, rows) {
      NewRowPasses(H, tail, rows, content);
      SyncedTail(tail, rows);
      AppendReport(H, tail, rows, content);
      SequelAssoc(FullWalk(H, GENESIS_CHAIN_HASH, rows), [], []);
    }
  }

  /** The SQLite file: `mcp_audit` in id order. */
  class AuditTable {
    var rows: seq<AuditRow>

    constructor ()
      ensures rows == []
    {
      rows := [];
    }
  }

  class AuditWriter {
    const table: AuditTable
    var lastChainHash: Bytes

    /** No other writer has appended since this one last looked. */
    ghost predicate InSync()
      reads this, table
    {
      Synced(lastChainHash, table.rows)
    }

    constructor (table: AuditTable, tail: Bytes)
      ensures this.table == table && lastChainHash == tail
    {
      this.table := table;
      lastChainHash := tail;
    }

    static method Open(table: AuditTable) returns (w: Result<AuditWriter, Error>)
      requires ValidTable(table.rows)
      ensures w.Ok? <==> LoadTail(table.rows).Ok?
      ensures w.Ok? ==> fresh(w.value) && w.value.table == table && w.value.InSync()
      ensures w.Err? ==> w.error == LoadTail(table.rows).error
    {
      var tail := LoadTail(table.rows);
      if tail.Err? {
        return Err(tail.error);
      }
      var writer := new AuditWriter(table, tail.value);
      return Ok(writer);
    }

    /** Commits one row, or leaves file and cached tail alone.  The cached tail is never re-read. */
    method Write(H: HashFunction, content: Row, refused: bool) returns (r: Result<AuditRow, WriteError>)
      requires ValidTable(table.rows)
      modifies this`lastChainHash, table`rows
      ensures r == Committed(H, old(lastChainHash), old(table.rows), content, refused)
      ensures r.Ok? ==> table.rows == old(table.rows) + [r.value] && lastChainHash == StoredHash(r.value)
      ensures r.Err? ==> table.rows == old(table.rows) && lastChainHash == old(lastChainHash)
      ensures ValidTable(table.rows)
      ensures r.Ok? || old(InSync()) ==> InSync()
      ensures old(InSync()) && CleanLog(H, old(table.rows)) ==> CleanLog(H, table.rows)
    {
      var nextId := NextId(table.rows);
      var canonical := CanonicalBytes(content["id" := SqlInteger(nextId)]);
      if canonical.Err? {
        return Err(Raised(canonical.error));
      }
      var chainHash := ComputeChainHash(H, lastChainHash, canonical.value);
      if chainHash.Err? {
        return Err(Raised(chainHash.error));
      }
      if refused {
        return Err(Refused);
      }
      var row := AuditRow(nextId, content, SqlBlob(chainHash.value));
      CommitKeeps(H, lastChainHash, table.rows, content, row);
      table.rows := table.rows + [row];
      lastChainHash := chainHash.value;
      return Ok(row);
    }
  }

  // ---------------------------------------------------------------------------
  // Several writers on one file
  // ---------------------------------------------------------------------------

  datatype Op = Open(writer: nat) | Write(writer: nat, content: Row, refused: bool)

  /** The file and the cached tail of every open writer. */
  datatype Session = Session(rows: seq<AuditRow>, tails: map<nat, Bytes>)

  function Do(H: HashFunction, s: Session, op: Op): Session {
    match op
    case Open(w) =>
      (match LoadTail(s.rows)
       case Ok(tail) => s.(tails := s.tails[w := tail])
       case Err(_) => s.(tails := s.tails - {w}))
    case Write(w, content, refused) =>
      if w !in s.tails then s
      else
        match Committed(H, s.tails[w], s.rows, content, refused)
        case Err(_) => s
        case Ok(r) => Session(s.rows + [r], s.tails[w := StoredHash(r)])
  }

  function DoAll(H: HashFunction, s: Session, ops: seq<Op>): Session
    decreases |ops|, H
  {
    if ops == [] then s else DoAll(H, Do(H, s, ops[0]), ops[1..])
  }

  predicate Commits(H: HashFunction, s: Session, op: Op) {
    op.Write? && op.writer in s.tails && !op.refused && NewRow(H, s.tails[op.writer], s.rows, op.content).Ok?
  }

  /** The operation commits a row although the file has moved on from the writer's cached tail. */
  predicate StaleWrite(H: HashFunction, s: Session, op: Op) {
    Commits(H, s, op) && s.tails[op.writer] != LastHash(GENESIS_CHAIN_HASH, s.rows)
  }

  function CommittedRow(H: HashFunction, s: Session, op: Op): AuditRow
    requires Commits(H, s, op)
  {
    NewRow(H, s.tails[op.writer], s.rows, op.content).value
  }

  function StaleReport(H: HashFunction, s: Session, op: Op): seq<ChainMismatch> {
    if StaleWrite(H, s, op)
    then [StaleMismatch(H, LastHash(GENESIS_CHAIN_HASH, s.rows), CommittedRow(H, s, op))]
    else []
  }

  function StaleReports(H: HashFunction, s: Session, ops: seq<Op>): seq<ChainMismatch>
    decreases |ops|, H
  {
    if ops == [] then [] else StaleReport(H, s, ops[0]) + StaleReports(H, Do(H, s, ops[0]), ops[1..])
  }

  function StaleEvidence(H: HashFunction, s: Session, op: Op): Evidence {
    if !StaleWrite(H, s, op) then NoEvidence
    else
      var content := Content(CommittedRow(H, s, op));
      Collision(LastHash(GENESIS_CHAIN_HASH, s.rows) + content, s.tails[op.writer] + content)
  }

  /** The first stale write whose two preimages collide. */
  function RunEvidence(H: HashFunction, s: Session, ops: seq<Op>): Evidence
    decreases |ops|, H
  {
    if ops == [] then NoEvidence
    else if Breaks(H, StaleEvidence(H, s, ops[0])) then StaleEvidence(H, s, ops[0])
    else RunEvidence(H, Do(H, s, ops[0]), ops[1..])
  }

  predicate Sound(s: Session) {
    ValidTable(s.rows) && |LastHash(GENESIS_CHAIN_HASH, s.rows)| == 32
  }

  /** One operation by any writer. */
  lemma {:induction false} OpReports(H: HashFunction, s: Session, op: Op)
    requires Sound(s) && !Breaks(H, StaleEvidence(H, s, op))
    ensures Sound(Do(H, s, op))
    ensures FullWalk(H, GENESIS_CHAIN_HASH, Do(H, s, op).rows) ==
            Sequel(FullWalk(H, GENESIS_CHAIN_HASH, s.rows), Walk(StaleReport(H, s, op), None))
  {
    var w := FullWalk(H, GENESIS_CHAIN_HASH, s.rows);
    if Commits(H, s, op) {
      var tail, base, r := s.tails[op.writer], LastHash(GENESIS_CHAIN_HASH, s.rows), CommittedRow(H, s, op);
      AppendReport(H, tail, s.rows, op.content);
      NewRowPasses(H, tail, s.rows, op.content);
      AppendStaysValid(s.rows, r);
      if tail != base {
        PrefixesDiffer(base, tail, Content(r));
      }
    } else {
      assert w.mismatches + [] == w.mismatches;
    }
  }

  /** After any run of any number of writers the full walk reports what it reported before, and then
      exactly the rows committed by a writer whose cached tail was stale, unless such a row's two
      preimages collide. */
  lemma {:induction false} RunReports(H: HashFunction, s: Session, ops: seq<Op>)
    requires Sound(s)
    ensures || FullWalk(H, GENESIS_CHAIN_HASH, DoAll(H, s, ops).rows) ==
               Sequel(FullWalk(H, GENESIS_CHAIN_HASH, s.rows), Walk(StaleReports(H, s, ops), None))
            || Breaks(H, RunEvidence(H, s, ops))
    decreases |ops|
  {
    var w := FullWalk(H, GENESIS_CHAIN_HASH, s.rows);
    if ops == [] {
      SequelAssoc(w, [], []);
    } else if !Breaks(H, StaleEvidence(H, s, ops[0])) {
      var next := Do(H, s, ops[0]);
      OpReports(H, s, ops[0]);
      RunReports(H, next, ops[1..]);
      SequelAssoc(w, StaleReport(H, s, ops[0]), StaleReports(H, next, ops[1..]));
    }
  }

  predicate TakesNextId(rows: seq<AuditRow>, i: nat)
    requires i < |rows|
  {
    rows[i].id == if i == 0 then 1 else rows[i - 1].id + 1
  }

  /** Reopening brings a writer up to date, and its next row is not reported. */
  lemma {:induction false} ReopenedIsFresh(H: HashFunction, s: Session, w: nat, content: Row, refused: bool)
    requires Sound(s) && LoadTail(s.rows).Ok?
    ensures var next := Do(H, s, Open(w));
            && next == Session(s.rows, s.tails[w := LastHash(GENESIS_CHAIN_HASH, s.rows)])
            && StaleReport(H, next, Write(w, content, refused)) == []
  {
  }

  /** The rows of `a` with rows behind them that take the ids that follow, from 1 on an empty table. */
  predicate Extends(a: seq<AuditRow>, b: seq<AuditRow>) {
    |a| <= |b| && b[..|a|] == a && forall i :: |a| <= i < |b| ==> TakesNextId(b, i)
  }

  lemma {:induction false} ExtendsTransitive(a: seq<AuditRow>, b: seq<AuditRow>, c: seq<AuditRow>)
    requires Extends(a, b) && Extends(b, c)
    ensures Extends(a, c)
  {
    assert c[..|a|] == c[..|b|][..|a|];
    forall i | |a| <= i < |c| ensures TakesNextId(c, i) {
      if i < |b| {
        assert TakesNextId(b, i);
        assert forall j :: 0 <= j < |b| ==> b[j] == c[..|b|][j] == c[j];
      }
    }
  }

  lemma {:induction false} RowExtends(rows: seq<AuditRow>, r: AuditRow)
    requires r.id == NextId(rows)
    ensures Extends(rows, rows + [r])
  {
  }

  lemma {:induction false} DoExtends(H: HashFunction, s: Session, op: Op)
    ensures Extends(s.rows, Do(H, s, op).rows)
  {
    if Commits(H, s, op) {
      RowExtends(s.rows, CommittedRow(H, s, op));
    } else {
      assert Do(H, s, op).rows == s.rows;
    }
  }

  /** No operation of any run touches a row, and every new row takes the next id. */
  lemma {:induction false} RunExtends(H: HashFunction, s: Session, ops: seq<Op>)
    ensures Extends(s.rows, DoAll(H, s, ops).rows)
    decreases |ops|
  {
    if ops != [] {
      var next := Do(H, s, ops[0]);
      DoExtends(H, s, ops[0]);
      RunExtends(H, next, ops[1..]);
      ExtendsTransitive(s.rows, next.rows, DoAll(H, next, ops[1..]).rows);
    }
  }

  /** A lone writer is never stale, so whatever it does keeps the log clean. */
  lemma {:induction false} LoneWriter(H: HashFunction, s: Session, ops: seq<Op>, w: nat)
    requires Sound(s) && forall op :: op in ops ==> op.writer == w
    requires w in s.tails ==> s.tails[w] == LastHash(GENESIS_CHAIN_HASH, s.rows)
    ensures StaleReports(H, s, ops) == [] && RunEvidence(H, s, ops) == NoEvidence
    decreases |ops|
  {
    if ops != [] {
      var op := ops[0];
      var next := Do(H, s, op);
      OpReports(H, s, op);
      if Commits(H, s, op) {
        NewRowPasses(H, s.tails[w], s.rows, op.content);
        assert next.rows == s.rows + [CommittedRow(H, s, op)];
      }
      LoneWriter(H, next, ops[1..], w);
    }
  }

  lemma {:induction false} LoneWriterStaysClean(H: HashFunction, s: Session, ops: seq<Op>, w: nat)
    requires Sound(s) && forall op :: op in ops ==> op.writer == w
    requires w in s.tails ==> s.tails[w] == LastHash(GENESIS_CHAIN_HASH, s.rows)
    requires Clean(H, GENESIS_CHAIN_HASH, s.rows)
    ensures Clean(H, GENESIS_CHAIN_HASH, DoAll(H, s, ops).rows)
  {
    RunReports(H, s, ops);
    LoneWriter(H, s, ops, w);
    SequelAssoc(FullWalk(H, GENESIS_CHAIN_HASH, s.rows), [], []);
  }

  // ---------------------------------------------------------------------------
  // The second writer
  // ---------------------------------------------------------------------------

  /** A tail that a fresh row would have to hash back to. */
  function ReturnEvidence(rows: seq<AuditRow>, r: AuditRow): Evidence {
    var preimage := LastHash(GENESIS_CHAIN_HASH, rows) + Content(r);
    if rows == [] then GenesisPreimage(preimage)
    else Collision(HeadPreimage(GENESIS_CHAIN_HASH, rows), preimage)
  }

  /** The head of a clean log moves with every row. */
  lemma {:induction false} HeadMoves(H: HashFunction, rows: seq<AuditRow>, r: AuditRow)
    requires ValidTable(rows + [r]) && Clean(H, GENESIS_CHAIN_HASH, rows + [r])
    ensures StoredHash(r) != LastHash(GENESIS_CHAIN_HASH, rows) || Breaks(H, ReturnEvidence(rows, r))
  {
    var g, all := GENESIS_CHAIN_HASH, rows + [r];
    assert all[..|all| - 1] == rows && all[|all| - 1] == r;
    LastLink(H, g, all);
    HeadPreimageHashes(H, g, all);
    if rows != [] {
      HeadPreimageHashes(H, g, rows);
      assert all[|rows| - 1].id < all[|rows|].id;
      HeadsDiffer(H, g, rows, all);
    }
  }

  /** Two writers opened on one clean file: once both have committed, the log no longer
      walks clean, and the report is the second writer's row. */
  lemma {:induction false} SecondWriterForks(H: HashFunction, s: Session, a: nat, b: nat, x: Row, y: Row)
    requires Sound(s) && Clean(H, GENESIS_CHAIN_HASH, s.rows) && a != b
    requires a in s.tails && s.tails[a] == LastHash(GENESIS_CHAIN_HASH, s.rows)
    requires b in s.tails && s.tails[b] == LastHash(GENESIS_CHAIN_HASH, s.rows)
    requires Commits(H, s, Write(a, x, false)) && Commits(H, Do(H, s, Write(a, x, false)), Write(b, y, false))
    ensures var mid := Do(H, s, Write(a, x, false));
            var r := CommittedRow(H, mid, Write(b, y, false));
            || FullWalk(H, GENESIS_CHAIN_HASH, Do(H, mid, Write(b, y, false)).rows) ==
               Walk([StaleMismatch(H, LastHash(GENESIS_CHAIN_HASH, mid.rows), r)], None)
            || Breaks(H, StaleEvidence(H, mid, Write(b, y, false)))
            || Breaks(H, ReturnEvidence(s.rows, CommittedRow(H, s, Write(a, x, false))))
  {
    var mid, first := Do(H, s, Write(a, x, false)), CommittedRow(H, s, Write(a, x, false));
    OpReports(H, s, Write(a, x, false));
    SequelAssoc(FullWalk(H, GENESIS_CHAIN_HASH, s.rows), [], []);
    assert mid.rows == s.rows + [first];
    HeadMoves(H, s.rows, first);
    if !Breaks(H, StaleEvidence(H, mid, Write(b, y, false))) {
      OpReports(H, mid, Write(b, y, false));
    }
  }
}
