/** What a walk over the audit table means, and what an edited table can hide from it. */
module ChainSecurity {
  import opened Bytes
  import opened Chain
  import opened RowOutcomes
  import opened Wrappers

  predicate Clean(H: HashFunction, prev: Bytes, rows: seq<AuditRow>) {
    FullWalk(H, prev, rows) == Walk([], None)
  }

  /** The baseline left behind after `rows`: the last stored hash. */
  function LastHash(prev: Bytes, rows: seq<AuditRow>): Bytes {
    if rows == [] then prev else StoredHash(rows[|rows| - 1])
  }

  /** The outcome of the check the walk makes at position `i`. */
  function LinkAt(H: HashFunction, prev: Bytes, rows: seq<AuditRow>, i: nat): RowCheck
    requires i < |rows|
  {
    CheckRow(H, LastHash(prev, rows[..i]), rows[i])
  }

  /** A walk cut off by an exception is not continued. */
  function Sequel(w: Walk, rest: Walk): Walk {
    if w.raised.Some? then w else Then(w.mismatches, rest)
  }

  // ---------------------------------------------------------------------------
  // Walks compose
  // ---------------------------------------------------------------------------

  lemma {:induction false} LastHashAppend(prev: Bytes, a: seq<AuditRow>, b: seq<AuditRow>)
    ensures LastHash(prev, a + b) == LastHash(LastHash(prev, a), b)
  {
    if b == [] {
      assert a + b == a;
    } else {
      assert (a + b)[|a + b| - 1] == b[|b| - 1];
    }
  }

  lemma {:induction false} SequelStep(m: seq<ChainMismatch>, w: Walk, rest: Walk)
    ensures Then(m, Sequel(w, rest)) == Sequel(Then(m, w), rest)
    ensures Then([], rest) == rest
  {
    assert m + (w.mismatches + rest.mismatches) == (m + w.mismatches) + rest.mismatches;
    assert [] + rest.mismatches == rest.mismatches;
  }

  /** Walking two blocks in one go is walking the first, then the second from the hash the first left. */
  lemma {:induction false} Compose(H: HashFunction, prev: Bytes, a: seq<AuditRow>, b: seq<AuditRow>)
    ensures FullWalk(H, prev, a + b) == Sequel(FullWalk(H, prev, a), FullWalk(H, LastHash(prev, a), b))
    decreases |a|
  {
    var rest := FullWalk(H, LastHash(prev, a), b);
    if a == [] {
      assert a + b == b;
      SequelStep([], rest, rest);
    } else {
      var next := StoredHash(a[0]);
      assert (a + b)[0] == a[0] && (a + b)[1..] == a[1..] + b;
      assert a == [a[0]] + a[1..];
      LastHashAppend(prev, [a[0]], a[1..]);
      Compose(H, next, a[1..], b);
      match CheckRow(H, prev, a[0])
      case Raises(_) =>
      case Passes =>
      case Fails(m) => SequelStep([m], FullWalk(H, next, a[1..]), rest);
    }
  }

  lemma {:induction false} CleanSplit(H: HashFunction, prev: Bytes, a: seq<AuditRow>, b: seq<AuditRow>)
    ensures Clean(H, prev, a + b) <==> Clean(H, prev, a) && Clean(H, LastHash(prev, a), b)
  {
    Compose(H, prev, a, b);
    var w, rest := FullWalk(H, prev, a), FullWalk(H, LastHash(prev, a), b);
    assert |w.mismatches + rest.mismatches| == |w.mismatches| + |rest.mismatches|;
  }

  /** Cutting off any suffix of a clean log goes unnoticed: the walk has no record of its length. */
  lemma {:induction false} TruncationUnseen(H: HashFunction, prev: Bytes, rows: seq<AuditRow>, k: nat)
    requires k <= |rows| && Clean(H, prev, rows)
    ensures Clean(H, prev, rows[..k])
  {
    var front, back := rows[..k], rows[k..];
    assert rows == front + back;
    CleanSplit(H, prev, front, back);
  }

  // ---------------------------------------------------------------------------
  // The meaning of a full walk, row by row
  // ---------------------------------------------------------------------------

  lemma {:induction false} LinkTail(H: HashFunction, prev: Bytes, rows: seq<AuditRow>, i: nat)
    requires i + 1 < |rows|
    ensures LinkAt(H, prev, rows, i + 1) == LinkAt(H, StoredHash(rows[0]), rows[1..], i)
  {
    assert rows[..i + 1] == [rows[0]] + rows[1..][..i];
    LastHashAppend(prev, [rows[0]], rows[1..][..i]);
  }

  lemma {:induction false} WalkLinks(H: HashFunction, prev: Bytes, rows: seq<AuditRow>)
    ensures FullWalk(H, prev, rows).raised == None <==>
            forall i :: 0 <= i < |rows| ==> !LinkAt(H, prev, rows, i).Raises?
    ensures FullWalk(H, prev, rows).raised == None ==>
            forall m :: m in FullWalk(H, prev, rows).mismatches <==>
                        exists i :: 0 <= i < |rows| && LinkAt(H, prev, rows, i) == Fails(m)
    decreases |rows|
  {
    if rows != [] {
      var tail, next := rows[1..], StoredHash(rows[0]);
      WalkLinks(H, next, tail);
      assert rows[..0] == [];
      assert LinkAt(H, prev, rows, 0) == CheckRow(H, prev, rows[0]);
      forall i | 0 <= i < |tail| ensures LinkAt(H, next, tail, i) == LinkAt(H, prev, rows, i + 1) {
        LinkTail(H, prev, rows, i);
      }
      forall i | 1 <= i < |rows| ensures LinkAt(H, prev, rows, i) == LinkAt(H, next, tail, i - 1) {
        LinkTail(H, prev, rows, i - 1);
      }
    }
  }

  /** The baseline for row `i` is a digest: the given one, or what the stored hash before it reads as. */
  predicate BaselineFits(prev: Bytes, rows: seq<AuditRow>, i: nat)
    requires i < |rows|
  {
    if i == 0 then |prev| == 32 else Reads32(rows[i - 1].chainHash)
  }

  /** What the cells of row `i` and the hash cell before it must show for the walk to end there. */
  predicate StopsWalk(prev: Bytes, rows: seq<AuditRow>, i: nat)
    requires i < |rows|
  {
    || !Readable(rows[i].chainHash)
    || Uncaught(rows[i])
    || (Serialises(rows[i]) && !BaselineFits(prev, rows, i))
  }

  lemma {:induction false} BaselineIff(prev: Bytes, rows: seq<AuditRow>, i: nat)
    requires i < |rows|
    ensures BaselineFits(prev, rows, i) <==> |LastHash(prev, rows[..i])| == 32
  {
    if i > 0 {
      assert rows[..i][|rows[..i]| - 1] == rows[i - 1];
      ReadableIff(rows[i - 1].chainHash);
    }
  }

  lemma {:induction false} StopsIff(H: HashFunction, prev: Bytes, rows: seq<AuditRow>, i: nat)
    requires i < |rows|
    ensures LinkAt(H, prev, rows, i).Raises? <==> StopsWalk(prev, rows, i)
  {
    BaselineIff(prev, rows, i);
    RaisesIff(H, LastHash(prev, rows[..i]), rows[i]);
  }

  /** The walk survives iff the cells of no row stop it, and then reports exactly the links that fail. */
  lemma {:induction false} WalkMeaning(H: HashFunction, prev: Bytes, rows: seq<AuditRow>)
    ensures FullWalk(H, prev, rows).raised == None <==> forall i :: 0 <= i < |rows| ==> !StopsWalk(prev, rows, i)
    ensures FullWalk(H, prev, rows).raised == None ==>
            forall m :: m in FullWalk(H, prev, rows).mismatches <==>
                        exists i :: 0 <= i < |rows| && LinkAt(H, prev, rows, i) == Fails(m)
  {
    WalkLinks(H, prev, rows);
    forall i | 0 <= i < |rows| ensures LinkAt(H, prev, rows, i).Raises? <==> StopsWalk(prev, rows, i) {
      StopsIff(H, prev, rows, i);
    }
  }

  function BaselineOf(prev: Bytes, rows: seq<AuditRow>, i: nat): Bytes
    requires i < |rows|
  {
    if i == 0 then prev else StoredHash(rows[i - 1])
  }

  /** What a walk that survives yields, link by link: the rows whose stored hash is not that of the stored
      hash before them and their own bytes, and the rows that have no bytes. */
  lemma {:induction false} ReportsAre(H: HashFunction, prev: Bytes, rows: seq<AuditRow>, m: ChainMismatch)
    requires FullWalk(H, prev, rows).raised == None
    ensures m in FullWalk(H, prev, rows).mismatches <==>
            exists i :: 0 <= i < |rows| && Reports(H, BaselineOf(prev, rows, i), rows[i], m)
  {
    WalkMeaning(H, prev, rows);
    forall i | 0 <= i < |rows|
      ensures LinkAt(H, prev, rows, i) == Fails(m) <==> Reports(H, BaselineOf(prev, rows, i), rows[i], m)
    {
      assert LastHash(prev, rows[..i]) == BaselineOf(prev, rows, i);
      FailsIff(H, BaselineOf(prev, rows, i), rows[i], m);
    }
  }

  predicate Within(ms: seq<ChainMismatch>, low: int, high: int) {
    forall m :: m in ms ==> low <= m.rowId <= high
  }

  predicate IdsWithin(rows: seq<AuditRow>, low: int, high: int) {
    forall i :: 0 <= i < |rows| ==> low <= rows[i].id <= high
  }

  lemma {:induction false} WithinCons(m: ChainMismatch, ms: seq<ChainMismatch>, low: int, high: int)
    requires low <= m.rowId <= high && Within(ms, low, high)
    ensures Within([m] + ms, low, high)
  {
  }

  lemma {:induction false} ReportsWithin(H: HashFunction, prev: Bytes, rows: seq<AuditRow>, low: int, high: int)
    requires IdsWithin(rows, low, high)
    ensures Within(FullWalk(H, prev, rows).mismatches, low, high)
    decreases |rows|
  {
    if rows != [] {
      ReportsWithin(H, StoredHash(rows[0]), rows[1..], low, high);
      match CheckRow(H, prev, rows[0])
      case Raises(_) =>
      case Passes =>
      case Fails(m) => WithinCons(m, FullWalk(H, StoredHash(rows[0]), rows[1..]).mismatches, low, high);
    }
  }

  predicate Increasing(ms: seq<ChainMismatch>) {
    forall j, k :: 0 <= j < k < |ms| ==> ms[j].rowId < ms[k].rowId
  }

  lemma {:induction false} IncreasingCons(m: ChainMismatch, ms: seq<ChainMismatch>, high: int)
    requires Increasing(ms) && Within(ms, m.rowId + 1, high)
    ensures Increasing([m] + ms)
  {
    var all := [m] + ms;
    forall j, k | 0 <= j < k < |all| ensures all[j].rowId < all[k].rowId {
      assert all[k] == ms[k - 1] && ms[k - 1] in ms;
      if j > 0 { assert all[j] == ms[j - 1]; }
    }
  }

  /** Reports come in id order, at most one a row. */
  lemma {:induction false} ReportOrder(H: HashFunction, prev: Bytes, rows: seq<AuditRow>)
    requires ValidTable(rows)
    ensures Increasing(FullWalk(H, prev, rows).mismatches)
    decreases |rows|
  {
    if rows != [] {
      var next, high := StoredHash(rows[0]), rows[|rows| - 1].id;
      ReportOrder(H, next, rows[1..]);
      ReportsWithin(H, next, rows[1..], rows[0].id + 1, high);
      match CheckRow(H, prev, rows[0])
      case Raises(_) =>
      case Passes =>
      case Fails(m) => IncreasingCons(m, FullWalk(H, next, rows[1..]).mismatches, high);
    }
  }

  // ---------------------------------------------------------------------------
  // Walks from a cursor
  // ---------------------------------------------------------------------------

  lemma {:induction false} AllAfter(rows: seq<AuditRow>, id: int)
    requires forall i :: 0 <= i < |rows| ==> rows[i].id > id
    ensures After(rows, id) == rows
    decreases |rows|
  {
    if rows != [] {
      AllAfter(rows[1..], id);
      assert rows == [rows[0]] + rows[1..];
    }
  }

  /** `After` is the part of a table behind position `k` when row `k` carries the id. */
  lemma {:induction false} AfterIsSuffix(rows: seq<AuditRow>, k: nat)
    requires ValidTable(rows) && k < |rows|
    ensures After(rows, rows[k].id) == rows[k + 1..]
    decreases |rows|
  {
    if k > 0 {
      AfterIsSuffix(rows[1..], k - 1);
      assert rows[1..][k..] == rows[k + 1..];
    } else {
      AllAfter(rows[1..], rows[0].id);
    }
  }

  lemma {:induction false} FindRowAt(rows: seq<AuditRow>, k: nat)
    requires ValidTable(rows) && k < |rows|
    ensures FindRow(rows, rows[k].id) == Some(rows[k])
    decreases |rows|
  {
    if k > 0 { FindRowAt(rows[1..], k - 1); }
  }

  lemma {:induction false} IdsAround(table: seq<AuditRow>, k: nat)
    requires ValidTable(table) && k < |table|
    ensures IdsWithin(table[..k + 1], table[0].id, table[k].id)
    ensures IdsWithin(table[k + 1..], table[k].id + 1, table[|table| - 1].id)
  {
  }

  lemma {:induction false} WalkAround(H: HashFunction, table: seq<AuditRow>, k: nat)
    requires k < |table|
    ensures FullWalk(H, GENESIS_CHAIN_HASH, table) ==
            Sequel(FullWalk(H, GENESIS_CHAIN_HASH, table[..k + 1]), FullWalk(H, StoredHash(table[k]), table[k + 1..]))
  {
    assert table == table[..k + 1] + table[k + 1..];
    Compose(H, GENESIS_CHAIN_HASH, table[..k + 1], table[k + 1..]);
  }

  lemma {:induction false} AnchorRaises(H: HashFunction, prev: Bytes, rows: seq<AuditRow>, k: nat)
    requires k < |rows| && ToBytes(rows[k].chainHash).Err?
    ensures FullWalk(H, prev, rows).raised.Some?
  {
    assert LinkAt(H, prev, rows, k).Raises?;
    WalkLinks(H, prev, rows);
  }

  /** For a row that exists, the walk from genesis is the walk over the rows up to it, all of whose
      reports carry ids up to it, followed by the since-walk from it, all of whose reports carry later ids. */
  lemma {:induction false} Decomposition(H: HashFunction, table: seq<AuditRow>, k: nat)
    requires ValidTable(table) && k < |table|
    ensures var upTo := FullWalk(H, GENESIS_CHAIN_HASH, table[..k + 1]);
            var since := WalkResult(H, table, true, Some(table[k].id));
            && WalkResult(H, table, true, None) == Sequel(upTo, since)
            && Within(upTo.mismatches, table[0].id, table[k].id)
            && Within(since.mismatches, table[k].id + 1, table[|table| - 1].id)
  {
    FindRowAt(table, k);
    AfterIsSuffix(table, k);
    WalkAround(H, table, k);
    IdsAround(table, k);
    ReportsWithin(H, GENESIS_CHAIN_HASH, table[..k + 1], table[0].id, table[k].id);
    ReportsWithin(H, StoredHash(table[k]), table[k + 1..], table[k].id + 1, table[|table| - 1].id);
    if ToBytes(table[k].chainHash).Err? {
      AnchorRaises(H, GENESIS_CHAIN_HASH, table[..k + 1], k);
    }
  }

  // ---------------------------------------------------------------------------
  // What a call yields
  // ---------------------------------------------------------------------------

  /** Where a call starts: at genesis, or behind an existing row whose stored hash can be read. */
  ghost predicate StartsAt(table: seq<AuditRow>, startAfterRowId: Option<int>, prev: Bytes, rows: seq<AuditRow>) {
    match startAfterRowId
    case None => prev == GENESIS_CHAIN_HASH && rows == table
    case Some(id) =>
      exists k: nat :: k < |table| && table[k].id == id && ToBytes(table[k].chainHash) == Ok(prev) && rows == table[k + 1..]
  }

  /** Row `i` is the first that does not pass, and it fails with `m`. */
  predicate FailsFirst(H: HashFunction, prev: Bytes, rows: seq<AuditRow>, i: nat, m: ChainMismatch) {
    && i < |rows| && LinkAt(H, prev, rows, i) == Fails(m)
    && forall j :: 0 <= j < i ==> LinkAt(H, prev, rows, j) == Passes
  }

  ghost predicate FirstFailure(H: HashFunction, prev: Bytes, rows: seq<AuditRow>, m: ChainMismatch) {
    exists i: nat :: FailsFirst(H, prev, rows, i, m)
  }

  lemma {:induction false} FirstFailureTail(H: HashFunction, prev: Bytes, rows: seq<AuditRow>, i: nat, m: ChainMismatch)
    requires rows != [] && i > 0
    ensures FailsFirst(H, prev, rows, i, m) <==>
            CheckRow(H, prev, rows[0]) == Passes && FailsFirst(H, StoredHash(rows[0]), rows[1..], i - 1, m)
  {
    var next, tail := StoredHash(rows[0]), rows[1..];
    assert rows[..0] == [];
    assert LinkAt(H, prev, rows, 0) == CheckRow(H, prev, rows[0]);
    forall j | 0 <= j < |tail| ensures LinkAt(H, next, tail, j) == LinkAt(H, prev, rows, j + 1) {
      LinkTail(H, prev, rows, j);
    }
    if FailsFirst(H, prev, rows, i, m) {
      forall j | 0 <= j < i - 1 ensures LinkAt(H, next, tail, j) == Passes {
        assert LinkAt(H, prev, rows, j + 1) == Passes;
      }
    }
    if CheckRow(H, prev, rows[0]) == Passes && FailsFirst(H, next, tail, i - 1, m) {
      forall j | 0 <= j < i ensures LinkAt(H, prev, rows, j) == Passes {
        if j > 0 { assert LinkAt(H, next, tail, j - 1) == Passes; }
      }
    }
  }

  /** The first report of the full walk is that of the first row that fails before any raises. */
  lemma {:induction false} FirstReport(H: HashFunction, prev: Bytes, rows: seq<AuditRow>, m: ChainMismatch)
    ensures FullWalk(H, prev, rows).mismatches != [] && FullWalk(H, prev, rows).mismatches[0] == m <==>
            FirstFailure(H, prev, rows, m)
    decreases |rows|
  {
    if rows != [] {
      var next, tail := StoredHash(rows[0]), rows[1..];
      FirstReport(H, next, tail, m);
      assert rows[..0] == [];
      assert LinkAt(H, prev, rows, 0) == CheckRow(H, prev, rows[0]);
      forall i: nat | i > 0
        ensures FailsFirst(H, prev, rows, i, m) <==>
                CheckRow(H, prev, rows[0]) == Passes && FailsFirst(H, next, tail, i - 1, m)
      {
        FirstFailureTail(H, prev, rows, i, m);
      }
      if i: nat :| FailsFirst(H, next, tail, i, m) {
        assert CheckRow(H, prev, rows[0]) == Passes ==> FailsFirst(H, prev, rows, i + 1, m);
      }
      if CheckRow(H, prev, rows[0]) == Fails(m) {
        assert FailsFirst(H, prev, rows, 0, m);
      }
    }
  }

  lemma {:induction false} StartIsWalked(H: HashFunction, table: seq<AuditRow>, full: bool, start: Option<int>,
                                         prev: Bytes, rows: seq<AuditRow>)
    requires ValidTable(table) && StartsAt(table, start, prev, rows)
    ensures WalkResult(H, table, full, start) == WalkFrom(H, prev, rows, full)
  {
    if start.Some? {
      var k: nat :| k < |table| && table[k].id == start.value && ToBytes(table[k].chainHash) == Ok(prev) && rows == table[k + 1..];
      FindRowAt(table, k);
      AfterIsSuffix(table, k);
    }
  }

  lemma {:induction false} FirstOnlyYields(w: Walk, m: ChainMismatch)
    ensures FirstOnly(w).mismatches == [m] <==> w.mismatches != [] && w.mismatches[0] == m
    ensures w.mismatches != [] ==> FirstOnly(w).raised == None
    ensures w.mismatches == [] ==> FirstOnly(w) == w
  {
    if w.mismatches != [] { assert w.mismatches[..1] == [w.mismatches[0]]; }
  }

  /** The default mode, from any start: it yields exactly the report of the first row that fails, if every
      row before it passes, and then raises nothing; without such a row it ends as the full walk does. */
  lemma {:induction false} FailFast(H: HashFunction, table: seq<AuditRow>, start: Option<int>, prev: Bytes, rows: seq<AuditRow>)
    requires ValidTable(table) && StartsAt(table, start, prev, rows)
    ensures WalkResult(H, table, true, start) == FullWalk(H, prev, rows)
    ensures forall m :: FirstFailure(H, prev, rows, m) <==> WalkResult(H, table, false, start).mismatches == [m]
    ensures forall m :: FirstFailure(H, prev, rows, m) ==> WalkResult(H, table, false, start).raised == None
    ensures (forall m :: !FirstFailure(H, prev, rows, m)) ==> WalkResult(H, table, false, start) == FullWalk(H, prev, rows)
  {
    var w, fast := FullWalk(H, prev, rows), WalkResult(H, table, false, start);
    StartIsWalked(H, table, true, start, prev, rows);
    StartIsWalked(H, table, false, start, prev, rows);
    assert fast == FirstOnly(w);
    forall m
      ensures FirstFailure(H, prev, rows, m) <==> fast.mismatches == [m]
      ensures FirstFailure(H, prev, rows, m) ==> fast.raised == None
    {
      FirstReport(H, prev, rows, m);
      FirstOnlyYields(w, m);
    }
    if w.mismatches != [] {
      FirstReport(H, prev, rows, w.mismatches[0]);
    }
  }

  /** Without a row of the given id nothing is yielded; with one whose hash cannot be read the call raises. */
  lemma {:induction false} NoStart(H: HashFunction, table: seq<AuditRow>, full: bool, id: int)
    requires ValidTable(table)
    ensures (forall k :: 0 <= k < |table| ==> table[k].id != id) ==> WalkResult(H, table, full, Some(id)) == Walk([], None)
    ensures forall k :: 0 <= k < |table| && table[k].id == id && !Readable(table[k].chainHash) ==>
                        WalkResult(H, table, full, Some(id)).mismatches == [] && WalkResult(H, table, full, Some(id)).raised.Some?
  {
    forall k | 0 <= k < |table| && table[k].id == id ensures FindRow(table, id) == Some(table[k]) {
      FindRowAt(table, k);
      ReadableIff(table[k].chainHash);
    }
  }
}
