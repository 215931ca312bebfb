/** What the cache can be trusted for after any history of complete, aborted and killed runs. */
module CacheHistory {
  import opened CatalogStore
  import opened Indexing
  import opened IndexerRuns
  import opened CrashRecovery
  import opened CrashHistory

  predicate TrueEntry(cfg: Config, id: TableId, e: Entry) {
    e.table.id == id && (e.fingerprints == map[] || StructuralOf(e.fingerprints) == NewStructural(cfg, e.table))
  }

  /** Stored fingerprints, where there are any, are those of the stored table, never of another version. */
  predicate CacheTrue(cfg: Config, s: State) {
    forall id :: id in s.tables ==> TrueEntry(cfg, id, s.tables[id])
  }

  lemma {:induction false} EntryKeeps(cfg: Config, s: State, id: TableId, e: Entry, t: State)
    requires CacheTrue(cfg, s) && TrueEntry(cfg, id, e) && t.tables == s.tables[id := e]
    ensures CacheTrue(cfg, t)
  {
  }

  lemma {:induction false} OpKeeps(cfg: Config, s: State, t: Table, op: Op)
    requires CacheTrue(cfg, s) && (DerivedOp(t, op) || op.DropTable? || op.PutTags?)
    ensures CacheTrue(cfg, Apply(s, op))
  {
    match op
    case PutDescriptions(id, d) =>
      if id in s.tables {
        assert TrueEntry(cfg, id, s.tables[id]);
        EntryKeeps(cfg, s, id, s.tables[id].(descriptions := d), Apply(s, op));
      }
    case PutEmbeddings(id, e) =>
      if id in s.tables {
        assert TrueEntry(cfg, id, s.tables[id]);
        EntryKeeps(cfg, s, id, s.tables[id].(embeddings := e), Apply(s, op));
      }
    case DropTable(id) =>
      forall i | i in s.tables - {id} ensures TrueEntry(cfg, i, (s.tables - {id})[i]) {
        assert TrueEntry(cfg, i, s.tables[i]);
      }
    case PutTags(_, _) =>
  }

  lemma {:induction false} DerivedKeep(cfg: Config, s: State, t: Table, ops: seq<Op>)
    requires CacheTrue(cfg, s) && forall i :: 0 <= i < |ops| ==> DerivedOp(t, ops[i])
    ensures CacheTrue(cfg, ApplyAll(s, ops))
    decreases |ops|
  {
    if ops != [] {
      OpKeeps(cfg, s, t, ops[0]);
      DerivedKeep(cfg, Apply(s, ops[0]), t, ops[1..]);
    }
  }

  lemma {:induction false} KilledKeeps(cfg: Config, s: State, t: Table, w: nat)
    requires CacheTrue(cfg, s) && w <= |Writes(cfg, t)|
    ensures CacheTrue(cfg, Killed(cfg, s, t, w))
  {
    var e := Entry(t, cfg.rowCount(t), map[], map[], map[]);
    var f := e.(fingerprints := FingerprintsOf(cfg, t));
    FirstTwoWrites(cfg, s, t);
    assert StructuralOf(FingerprintsOf(cfg, t)) == NewStructural(cfg, t);
    EntryKeeps(cfg, s, t.id, e, WithEntry(s, t, e));
    EntryKeeps(cfg, s, t.id, f, WithEntry(s, t, f));
    if w > 2 {
      var ops, tail := Writes(cfg, t), DerivedWrites(cfg, t);
      assert ops[..w] == ops[..2] + tail[..w - 2];
      ApplyAppend(s, ops[..2], tail[..w - 2]);
      DerivedWritesAreDerived(cfg, t);
      DerivedKeep(cfg, Killed(cfg, s, t, 2), t, tail[..w - 2]);
    }
  }

  lemma {:induction false} PersistedKeeps(cfg: Config, s: State, t: Table)
    requires CacheTrue(cfg, s)
    ensures CacheTrue(cfg, Persisted(cfg, s, t))
  {
    assert StructuralOf(FingerprintsOf(cfg, t)) == NewStructural(cfg, t);
    EntryKeeps(cfg, s, t.id, EntryOf(cfg, t), Persisted(cfg, s, t));
  }

  lemma {:induction false} StepsKeep(cfg: Config, s: State, ts: seq<Table>)
    requires CacheTrue(cfg, s)
    ensures CacheTrue(cfg, Steps(cfg, s, ts))
    decreases |ts|
  {
    if ts != [] {
      PersistedKeeps(cfg, s, ts[0]);
      StepsKeep(cfg, TableStep(cfg, s, ts[0]), ts[1..]);
    }
  }

  lemma {:induction false} WithoutKeeps(cfg: Config, s: State, gone: set<TableId>)
    requires CacheTrue(cfg, s)
    ensures CacheTrue(cfg, Without(s, gone))
  {
    forall i | i in s.tables - gone ensures TrueEntry(cfg, i, (s.tables - gone)[i]) {
      assert TrueEntry(cfg, i, s.tables[i]);
    }
  }

  lemma {:induction false} DroppingKeeps(cfg: Config, s: State, order: seq<TableId>, n: nat)
    requires CacheTrue(cfg, s) && n <= 2 * |order|
    ensures CacheTrue(cfg, Dropping(s, order, n))
    decreases |order|
  {
    if n == 1 {
      WithoutKeeps(cfg, s, {order[0]});
      assert Dropping(s, order, n).tables == Without(s, {order[0]}).tables;
    } else if n >= 2 {
      WithoutKeeps(cfg, s, {order[0]});
      DroppingKeeps(cfg, Without(s, {order[0]}), order[1..], n - 2);
    }
  }

  lemma {:induction false} InsideKeeps(cfg: Config, s: State, ts: seq<Table>, cut: State, k: nat, w: nat)
    requires CacheTrue(cfg, s) && InsideTable(cfg, s, ts, cut, k, w)
    ensures CacheTrue(cfg, cut)
  {
    InsideMeans(cfg, s, ts, cut, k, w);
    if k < |ts| {
      StepsKeep(cfg, s, ts[..k]);
      KilledKeeps(cfg, Steps(cfg, s, ts[..k]), ts[k], w);
    } else {
      StepsKeep(cfg, s, ts);
    }
  }

  /** A run killed anywhere keeps the cache true. */
  lemma {:induction false} KilledRunKeeps(cfg: Config, s: State, order: seq<TableId>, source: seq<Table>, n: nat)
    requires CacheTrue(cfg, s) && Enumerates(order, Gone(s, source)) && n <= |RunOps(cfg, s, order, source)|
    ensures CacheTrue(cfg, KilledRun(cfg, s, order, source, n))
  {
    if n <= 2 * |order| {
      KilledAmongDrops(cfg, s, order, source, n);
      DroppingKeeps(cfg, s, order, n);
    } else {
      var start := Start(s, source);
      KilledAmongTables(cfg, s, order, source, n);
      WithoutKeeps(cfg, s, Gone(s, source));
      var cut := KilledRun(cfg, s, order, source, n);
      var k, w := StepOpsCut(cfg, start, source, n - 2 * |order|, cut);
      InsideKeeps(cfg, start, source, cut, k, w);
    }
  }

  // ---------------------------------------------------------------------------
  // Histories
  // ---------------------------------------------------------------------------

  /** One run in the life of a store: its configuration, what the source looked like, the order vanished
      tables were dropped in, and after how many store calls it ended. */
  datatype Run = Run(cfg: Config, source: seq<Table>, order: seq<TableId>, calls: nat)

  ghost predicate CanHappen(structural: (Table, string) -> string, s: State, r: Run) {
    && r.cfg.structural == structural
    && Enumerates(r.order, Gone(s, r.source))
    && r.calls <= |RunOps(r.cfg, s, r.order, r.source)|
  }

  function After(s: State, r: Run): State
    requires r.calls <= |RunOps(r.cfg, s, r.order, r.source)|
  {
    KilledRun(r.cfg, s, r.order, r.source, r.calls)
  }

  /** `end` is what a sequence of runs can make of `s`. */
  ghost predicate Reaches(structural: (Table, string) -> string, s: State, runs: seq<Run>, end: State)
    decreases |runs|, s
  {
    if runs == [] then end == s
    else CanHappen(structural, s, runs[0]) && Reaches(structural, After(s, runs[0]), runs[1..], end)
  }

  lemma {:induction false} SameStructural(a: Config, b: Config, s: State)
    requires a.structural == b.structural
    ensures CacheTrue(a, s) == CacheTrue(b, s)
  {
    forall t: Table ensures NewStructural(a, t) == NewStructural(b, t) {
    }
  }

  lemma {:induction false} HistoryKeeps(cfg: Config, s: State, runs: seq<Run>, end: State)
    requires CacheTrue(cfg, s) && Reaches(cfg.structural, s, runs, end)
    ensures CacheTrue(cfg, end)
    decreases |runs|
  {
    if runs != [] {
      var r := runs[0];
      SameStructural(cfg, r.cfg, s);
      KilledRunKeeps(r.cfg, s, r.order, r.source, r.calls);
      SameStructural(cfg, r.cfg, After(s, r));
      HistoryKeeps(cfg, After(s, r), runs[1..], end);
    }
  }

  /** Whatever runs a store has seen, over however changing a source, however they ended: after one
      complete run it holds no table the source lacks, and every source table with a column is stored in
      a version whose columns have the source's structural hashes, which are also the stored ones. */
  lemma {:induction false} CacheAgreement(cfg: Config, runs: seq<Run>, s: State, source: seq<Table>)
    requires Reaches(cfg.structural, EMPTY_STORE, runs, s) && DistinctTables(source)
    ensures var end := Indexed(cfg, s, source);
            && end.tables.Keys <= Ids(source)
            && forall i :: 0 <= i < |source| && source[i].columns != [] ==>
                 && source[i].id in end.tables
                 && Cached(end, source[i].id) == NewStructural(cfg, source[i])
                 && NewStructural(cfg, end.tables[source[i].id].table) == NewStructural(cfg, source[i])
  {
    var end := Indexed(cfg, s, source);
    HistoryKeeps(cfg, EMPTY_STORE, runs, s);
    WithoutKeeps(cfg, s, Gone(s, source));
    StepsKeep(cfg, Start(s, source), source);
    CacheMatchesSource(cfg, s, source);
    forall i | 0 <= i < |source| && source[i].columns != []
      ensures source[i].id in end.tables
      ensures NewStructural(cfg, end.tables[source[i].id].table) == NewStructural(cfg, source[i])
    {
      var id := source[i].id;
      CachedIff(cfg, s, source, i);
      NoColumns(cfg, source[i]);
      assert TrueEntry(cfg, id, end.tables[id]);
      assert StructuralOf(map[]) == map[];
    }
  }
}
