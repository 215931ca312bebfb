/** Whole runs of the indexer: settling, resuming after aborts, idempotence, what is written once. */
module IndexerRuns {
  import opened CatalogStore
  import opened Indexing

  // ---------------------------------------------------------------------------
  // One table
  // ---------------------------------------------------------------------------

  lemma {:induction false} PersistedIsCached(cfg: Config, s: State, t: Table)
    ensures Cached(Persisted(cfg, s, t), t.id) == NewStructural(cfg, t)
  {
    assert CachedFingerprints(Persisted(cfg, s, t), t.id) == FingerprintsOf(cfg, t);
    assert StructuralOf(FingerprintsOf(cfg, t)) == NewStructural(cfg, t);
  }

  /** A table the run has been at is unchanged for the next comparison. */
  lemma {:induction false} Settled(cfg: Config, s: State, t: Table)
    ensures Unchanged(cfg, TableStep(cfg, s, t), t)
  {
    if !Unchanged(cfg, s, t) {
      PersistedIsCached(cfg, s, t);
    }
  }

  /** Two stores agree on the row of one table. */
  predicate SameEntry(a: State, b: State, id: TableId) {
    (id in a.tables <==> id in b.tables) && (id in a.tables ==> a.tables[id] == b.tables[id])
  }

  lemma {:induction false} SameEntrySameDiff(cfg: Config, a: State, b: State, t: Table)
    requires SameEntry(a, b, t.id)
    ensures Cached(a, t.id) == Cached(b, t.id)
    ensures Unchanged(cfg, a, t) == Unchanged(cfg, b, t)
    ensures TableCounts(cfg, a, t) == TableCounts(cfg, b, t)
  {
  }

  lemma {:induction false} StepFrame(cfg: Config, s: State, t: Table, id: TableId)
    requires id != t.id
    ensures SameEntry(TableStep(cfg, s, t), s, id)
  {
  }

  lemma {:induction false} StepsFrame(cfg: Config, s: State, ts: seq<Table>, id: TableId)
    requires forall i :: 0 <= i < |ts| ==> ts[i].id != id
    ensures SameEntry(Steps(cfg, s, ts), s, id)
    decreases |ts|
  {
    if ts != [] {
      StepFrame(cfg, s, ts[0], id);
      StepsFrame(cfg, TableStep(cfg, s, ts[0]), ts[1..], id);
    }
  }

  predicate AllUnchanged(cfg: Config, s: State, ts: seq<Table>) {
    forall i :: 0 <= i < |ts| ==> Unchanged(cfg, s, ts[i])
  }

  /** After its tables have been stepped through, none of them differs from the cache. */
  lemma {:induction false} AllSettled(cfg: Config, s: State, ts: seq<Table>)
    requires DistinctTables(ts)
    ensures AllUnchanged(cfg, Steps(cfg, s, ts), ts)
    decreases |ts|
  {
    if ts != [] {
      var next := TableStep(cfg, s, ts[0]);
      var end := Steps(cfg, next, ts[1..]);
      AllSettled(cfg, next, ts[1..]);
      Settled(cfg, s, ts[0]);
      StepsFrame(cfg, next, ts[1..], ts[0].id);
      SameEntrySameDiff(cfg, end, next, ts[0]);
      forall i | 0 <= i < |ts| ensures Unchanged(cfg, end, ts[i]) {
        if i > 0 { assert ts[i] == ts[1..][i - 1]; }
      }
    }
  }

  /** Stepping through unchanged tables writes nothing. */
  lemma {:induction false} NothingToDo(cfg: Config, s: State, ts: seq<Table>)
    requires AllUnchanged(cfg, s, ts)
    ensures Steps(cfg, s, ts) == s && Rewritten(cfg, s, ts) == []
    ensures StepCounts(cfg, s, ts) == Counts(TableTally(0, |ts|), ColumnTally(0, 0, 0), TextTally(0, 0))
    decreases |ts|
  {
    if ts != [] {
      assert Unchanged(cfg, s, ts[0]);
      NothingToDo(cfg, s, ts[1..]);
    }
  }

  lemma {:induction false} StepsKeys(cfg: Config, s: State, ts: seq<Table>)
    ensures s.tables.Keys <= Steps(cfg, s, ts).tables.Keys <= s.tables.Keys + Ids(ts)
    decreases |ts|
  {
    if ts != [] {
      StepsKeys(cfg, TableStep(cfg, s, ts[0]), ts[1..]);
      assert ts[0].id in Ids(ts);
      assert Ids(ts[1..]) <= Ids(ts) by {
        forall id | id in Ids(ts[1..]) ensures id in Ids(ts) {
          var i :| 0 <= i < |ts[1..]| && ts[1..][i].id == id;
          assert ts[i + 1].id == id;
        }
      }
    }
  }

  lemma {:induction false} Regroup<T>(a: seq<T>, b: seq<T>, c: seq<T>)
    ensures (a + b) + c == a + (b + c)
  {
  }

  lemma {:induction false} RewrittenAppend(cfg: Config, s: State, a: seq<Table>, b: seq<Table>)
    ensures Rewritten(cfg, s, a + b) == Rewritten(cfg, s, a) + Rewritten(cfg, Steps(cfg, s, a), b)
    decreases |a|
  {
    if a == [] {
      assert a + b == b;
    } else {
      assert (a + b)[0] == a[0] && (a + b)[1..] == a[1..] + b;
      var next := TableStep(cfg, s, a[0]);
      RewrittenAppend(cfg, next, a[1..], b);
      Regroup(if Unchanged(cfg, s, a[0]) then [] else [a[0].id], Rewritten(cfg, next, a[1..]), Rewritten(cfg, Steps(cfg, s, a), b));
    }
  }

  // ---------------------------------------------------------------------------
  // Aborted runs
  // ---------------------------------------------------------------------------

  /** The store once the vanished tables are gone. */
  function Start(s: State, source: seq<Table>): State {
    Without(s, Gone(s, source))
  }

  /** The store after a run that raised while profiling or enriching table `k`. */
  function AbortedRun(cfg: Config, s: State, source: seq<Table>, k: nat): State
    requires k <= |source|
  {
    Steps(cfg, Start(s, source), source[..k])
  }

  function AbortedLog(cfg: Config, s: State, source: seq<Table>, k: nat): seq<TableId>
    requires k <= |source|
  {
    Rewritten(cfg, Start(s, source), source[..k])
  }

  function RunLog(cfg: Config, s: State, source: seq<Table>): seq<TableId> {
    Rewritten(cfg, Start(s, source), source)
  }

  lemma {:induction false} NothingGone(s: State, source: seq<Table>)
    requires s.tables.Keys <= Ids(source)
    ensures Start(s, source) == s
  {
    assert Gone(s, source) == {};
    WithoutNothing(s);
  }

  lemma {:induction false} PrefixIds(source: seq<Table>, k: nat)
    requires k <= |source|
    ensures Ids(source[..k]) <= Ids(source)
  {
    forall id | id in Ids(source[..k]) ensures id in Ids(source) {
      var i :| 0 <= i < |source[..k]| && source[..k][i].id == id;
      assert source[i].id == id;
    }
  }

  /** An aborted run leaves nothing to drop and its finished tables settled. */
  lemma {:induction false} AfterAbort(cfg: Config, s: State, source: seq<Table>, k: nat)
    requires DistinctTables(source) && k <= |source|
    ensures var mid := AbortedRun(cfg, s, source, k);
            Start(mid, source) == mid && AllUnchanged(cfg, mid, source[..k])
  {
    var start, mid := Start(s, source), AbortedRun(cfg, s, source, k);
    StepsKeys(cfg, start, source[..k]);
    PrefixIds(source, k);
    assert start.tables.Keys <= Ids(source);
    NothingGone(mid, source);
    AllSettled(cfg, start, source[..k]);
  }

  /** A run from the store an abort left reaches the store a single complete run would have reached, and
      the two together rewrite the tables that run would have rewritten, in its order. */
  lemma {:induction false} Resume(cfg: Config, s: State, source: seq<Table>, k: nat)
    requires DistinctTables(source) && k <= |source|
    ensures var mid := AbortedRun(cfg, s, source, k);
            && Indexed(cfg, mid, source) == Indexed(cfg, s, source)
            && AbortedLog(cfg, s, source, k) + RunLog(cfg, mid, source) == RunLog(cfg, s, source)
  {
    var start, mid := Start(s, source), AbortedRun(cfg, s, source, k);
    var done, rest := source[..k], source[k..];
    assert source == done + rest;
    AfterAbort(cfg, s, source, k);
    NothingToDo(cfg, mid, done);
    StepsAppend(cfg, start, done, rest);
    StepsAppend(cfg, mid, done, rest);
    RewrittenAppend(cfg, start, done, rest);
    RewrittenAppend(cfg, mid, done, rest);
    assert [] + Rewritten(cfg, mid, rest) == Rewritten(cfg, mid, rest);
  }

  /** A sequence of runs, each aborted at the given table. */
  function AbortedRuns(cfg: Config, s: State, source: seq<Table>, ks: seq<nat>): State
    requires forall i :: 0 <= i < |ks| ==> ks[i] <= |source|
    decreases |ks|, cfg
  {
    if ks == [] then s else AbortedRuns(cfg, AbortedRun(cfg, s, source, ks[0]), source, ks[1..])
  }

  function AbortedLogs(cfg: Config, s: State, source: seq<Table>, ks: seq<nat>): seq<TableId>
    requires forall i :: 0 <= i < |ks| ==> ks[i] <= |source|
    decreases |ks|, cfg
  {
    if ks == [] then []
    else AbortedLog(cfg, s, source, ks[0]) + AbortedLogs(cfg, AbortedRun(cfg, s, source, ks[0]), source, ks[1..])
  }

  /** However often and wherever runs were cut short, one complete run on the same source ends in the
      store of a single complete run from the beginning, and all runs together have rewritten exactly
      that run's tables, each where and as often as it did. */
  lemma {:induction false} AbortConvergence(cfg: Config, s: State, source: seq<Table>, ks: seq<nat>)
    requires DistinctTables(source) && forall i :: 0 <= i < |ks| ==> ks[i] <= |source|
    ensures var mid := AbortedRuns(cfg, s, source, ks);
            && Indexed(cfg, mid, source) == Indexed(cfg, s, source)
            && AbortedLogs(cfg, s, source, ks) + RunLog(cfg, mid, source) == RunLog(cfg, s, source)
    decreases |ks|
  {
    if ks == [] {
      assert [] + RunLog(cfg, s, source) == RunLog(cfg, s, source);
    } else {
      var next := AbortedRun(cfg, s, source, ks[0]);
      Resume(cfg, s, source, ks[0]);
      AbortConvergence(cfg, next, source, ks[1..]);
      Regroup(AbortedLog(cfg, s, source, ks[0]), AbortedLogs(cfg, next, source, ks[1..]),
              RunLog(cfg, AbortedRuns(cfg, next, source, ks[1..]), source));
    }
  }

  /** The table with this id differs from the cache. */
  predicate Differs(cfg: Config, s: State, ts: seq<Table>, id: TableId) {
    exists i :: 0 <= i < |ts| && ts[i].id == id && !Unchanged(cfg, s, ts[i])
  }

  lemma {:induction false} DiffersCons(cfg: Config, s: State, ts: seq<Table>, id: TableId)
    requires ts != []
    ensures Differs(cfg, s, ts, id) <==>
            (ts[0].id == id && !Unchanged(cfg, s, ts[0])) || Differs(cfg, s, ts[1..], id)
  {
    var tail := ts[1..];
    if Differs(cfg, s, ts, id) {
      var i :| 0 <= i < |ts| && ts[i].id == id && !Unchanged(cfg, s, ts[i]);
      assert i > 0 ==> tail[i - 1] == ts[i];
    }
    if Differs(cfg, s, tail, id) {
      var i :| 0 <= i < |tail| && tail[i].id == id && !Unchanged(cfg, s, tail[i]);
      assert ts[i + 1] == tail[i];
    }
  }

  lemma {:induction false} DiffersFrame(cfg: Config, s: State, t: Table, ts: seq<Table>, id: TableId)
    requires forall i :: 0 <= i < |ts| ==> ts[i].id != t.id
    ensures Differs(cfg, TableStep(cfg, s, t), ts, id) == Differs(cfg, s, ts, id)
  {
    forall i | 0 <= i < |ts| ensures Unchanged(cfg, TableStep(cfg, s, t), ts[i]) == Unchanged(cfg, s, ts[i]) {
      StepFrame(cfg, s, t, ts[i].id);
      SameEntrySameDiff(cfg, TableStep(cfg, s, t), s, ts[i]);
    }
  }

  predicate NoRepeats(log: seq<TableId>) {
    forall i, j :: 0 <= i < j < |log| ==> log[i] != log[j]
  }

  lemma {:induction false} HeadNotInTail(cfg: Config, s: State, ts: seq<Table>)
    requires ts != [] && DistinctTables(ts)
    ensures !Differs(cfg, s, ts[1..], ts[0].id)
  {
  }

  lemma {:induction false} Prepend(id: TableId, log: seq<TableId>)
    requires id !in log && NoRepeats(log)
    ensures NoRepeats([id] + log)
  {
    var all := [id] + log;
    forall i, j | 0 <= i < j < |all| ensures all[i] != all[j] {
      assert all[j] == log[j - 1];
      if i > 0 { assert all[i] == log[i - 1]; }
    }
  }

  /** What a run rewrites: the tables that differ from the cache it started from, each once. */
  lemma {:induction false} RewrittenMeaning(cfg: Config, s: State, ts: seq<Table>)
    requires DistinctTables(ts)
    ensures forall id :: id in Rewritten(cfg, s, ts) <==> Differs(cfg, s, ts, id)
    ensures NoRepeats(Rewritten(cfg, s, ts))
    decreases |ts|
  {
    if ts != [] {
      var next, tail := TableStep(cfg, s, ts[0]), ts[1..];
      RewrittenMeaning(cfg, next, tail);
      var log := Rewritten(cfg, next, tail);
      forall id ensures Differs(cfg, next, tail, id) == Differs(cfg, s, tail, id) {
        DiffersFrame(cfg, s, ts[0], tail, id);
      }
      forall id ensures id in Rewritten(cfg, s, ts) <==> Differs(cfg, s, ts, id) {
        DiffersCons(cfg, s, ts, id);
      }
      HeadNotInTail(cfg, s, ts);
      Prepend(ts[0].id, log);
      assert [] + log == log;
    }
  }

  /** Over all runs of such a sequence, a table is rewritten iff it differed from the cache at the
      beginning, and no table is rewritten twice. */
  lemma {:induction false} RewrittenOnce(cfg: Config, s: State, source: seq<Table>, ks: seq<nat>)
    requires DistinctTables(source) && forall i :: 0 <= i < |ks| ==> ks[i] <= |source|
    ensures var log := AbortedLogs(cfg, s, source, ks) + RunLog(cfg, AbortedRuns(cfg, s, source, ks), source);
            NoRepeats(log) && forall id :: id in log <==> Differs(cfg, s, source, id)
  {
    var start := Start(s, source);
    AbortConvergence(cfg, s, source, ks);
    RewrittenMeaning(cfg, start, source);
    forall i | 0 <= i < |source| ensures Unchanged(cfg, start, source[i]) == Unchanged(cfg, s, source[i]) {
      assert source[i].id in Ids(source);
      SameEntrySameDiff(cfg, start, s, source[i]);
    }
    assert forall id :: Differs(cfg, start, source, id) == Differs(cfg, s, source, id);
  }

  // ---------------------------------------------------------------------------
  // Complete runs
  // ---------------------------------------------------------------------------

  lemma {:induction false} WholeRun(cfg: Config, s: State, source: seq<Table>)
    ensures AbortedRun(cfg, s, source, |source|) == Indexed(cfg, s, source)
  {
    assert source[..|source|] == source;
  }

  /** A second run on the same source touches nothing: no table is profiled, enriched or rewritten, the
      store stays as it is, and the result counts every table as unchanged. */
  lemma {:induction false} Idempotence(cfg: Config, s: State, source: seq<Table>)
    requires DistinctTables(source)
    ensures var once := Indexed(cfg, s, source);
            && Indexed(cfg, once, source) == once
            && RunLog(cfg, once, source) == []
            && ResultOf(cfg, once, source) ==
               IndexResult(|source|, 0, Counts(TableTally(0, |source|), ColumnTally(0, 0, 0), TextTally(0, 0)))
  {
    var once := Indexed(cfg, s, source);
    WholeRun(cfg, s, source);
    AfterAbort(cfg, s, source, |source|);
    assert source[..|source|] == source;
    NothingToDo(cfg, once, source);
    StepsKeys(cfg, Start(s, source), source);
    assert Gone(once, source) == {};
  }

  /** After a complete run the cache holds no table but the source's, and agrees with the source on the
      structural hash of every column of every table. */
  lemma {:induction false} CacheMatchesSource(cfg: Config, s: State, source: seq<Table>)
    requires DistinctTables(source)
    ensures Indexed(cfg, s, source).tables.Keys <= Ids(source)
    ensures forall i :: 0 <= i < |source| ==>
              Cached(Indexed(cfg, s, source), source[i].id) == NewStructural(cfg, source[i])
  {
    var start, end := Start(s, source), Indexed(cfg, s, source);
    StepsKeys(cfg, start, source);
    AllSettled(cfg, start, source);
    forall i | 0 <= i < |source| ensures Cached(end, source[i].id) == NewStructural(cfg, source[i]) {
      UnchangedIff(cfg, end, source[i]);
    }
  }

  lemma {:induction false} NoColumns(cfg: Config, t: Table)
    ensures NewStructural(cfg, t) == map[] <==> t.columns == []
  {
    if t.columns != [] {
      assert t.columns[0].name in NewStructural(cfg, t);
    }
  }

  lemma {:induction false} EntryAfterSteps(cfg: Config, s: State, ts: seq<Table>, i: nat)
    requires DistinctTables(ts) && i < |ts|
    ensures SameEntry(Steps(cfg, s, ts), TableStep(cfg, s, ts[i]), ts[i].id)
    decreases |ts|
  {
    var next, tail, id := TableStep(cfg, s, ts[0]), ts[1..], ts[i].id;
    if i == 0 {
      StepsFrame(cfg, next, tail, id);
    } else {
      EntryAfterSteps(cfg, next, tail, i - 1);
      StepFrame(cfg, s, ts[0], id);
      SameEntrySameDiff(cfg, next, s, ts[i]);
    }
  }

  /** A source table is in the cache after a complete run iff it has a column or was there before: one
      without columns never looks changed, so it is never written. */
  lemma {:induction false} CachedIff(cfg: Config, s: State, source: seq<Table>, i: nat)
    requires DistinctTables(source) && i < |source|
    ensures source[i].id in Indexed(cfg, s, source).tables <==> source[i].columns != [] || source[i].id in s.tables
  {
    var start, t := Start(s, source), source[i];
    EntryAfterSteps(cfg, start, source, i);
    NoColumns(cfg, t);
    UnchangedIff(cfg, start, t);
    assert t.id in Ids(source);
    assert t.id in start.tables <==> t.id in s.tables;
  }

  /** The row of the source, both fingerprints of every column, what the pipeline returned, and an
      embedding of each description. */
  predicate FreshEntry(cfg: Config, t: Table, e: Entry) {
    && e.table == t && e.rowCount == cfg.rowCount(t)
    && e.fingerprints.Keys == ColumnNames(t)
    && (forall c :: c in ColumnNames(t) ==>
          e.fingerprints[c] == Fingerprints(cfg.structural(t, c), cfg.semantic(t, c)))
    && (if cfg.enrich.Some? then e.descriptions == cfg.enrich.value(t) else e.descriptions == map[])
    && (if cfg.embed.Some?
        then e.embeddings.Keys == e.descriptions.Keys
             && forall c :: c in e.descriptions ==> e.embeddings[c] == cfg.embed.value(e.descriptions[c])
        else e.embeddings == map[])
  }

  lemma {:induction false} EntryIsFresh(cfg: Config, t: Table)
    ensures FreshEntry(cfg, t, EntryOf(cfg, t))
  {
  }

  /** What a run leaves of a source table: its old row with all derived data if it is unchanged, and a
      fresh one otherwise. */
  lemma {:induction false} EntryAfterRun(cfg: Config, s: State, source: seq<Table>, i: nat)
    requires DistinctTables(source) && i < |source|
    ensures var t, end := source[i], Indexed(cfg, s, source);
            if Unchanged(cfg, s, t) then SameEntry(end, s, t.id)
            else t.id in end.tables && FreshEntry(cfg, t, end.tables[t.id])
  {
    var start, t := Start(s, source), source[i];
    assert t.id in Ids(source);
    EntryAfterSteps(cfg, start, source, i);
    SameEntrySameDiff(cfg, start, s, t);
    EntryIsFresh(cfg, t);
  }

  // ---------------------------------------------------------------------------
  // What hangs on the tables
  // ---------------------------------------------------------------------------

  function Members(log: seq<TableId>): set<TableId> {
    set id | id in log
  }

  lemma {:induction false} StepsSpare(cfg: Config, s: State, ts: seq<Table>)
    ensures Steps(cfg, s, ts).dependents == Spared(s.dependents, Members(Rewritten(cfg, s, ts)))
    decreases |ts|
  {
    if ts == [] {
      assert Members([]) == {};
      SparedNone(s.dependents);
    } else {
      var next := TableStep(cfg, s, ts[0]);
      var log := Rewritten(cfg, next, ts[1..]);
      StepsSpare(cfg, next, ts[1..]);
      SparedTwice(s.dependents, {ts[0].id}, Members(log));
      assert Members([ts[0].id] + log) == {ts[0].id} + Members(log);
      assert [] + log == log;
    }
  }

  /** An example query, entity, join or metric outlives a run iff none of the tables it hangs on has
      vanished or changed: rewriting a table deletes its row first, and the cascade takes them along. */
  lemma {:induction false} DependentSurvives(cfg: Config, s: State, source: seq<Table>, d: string)
    requires DistinctTables(source) && d in s.dependents
    ensures d in Indexed(cfg, s, source).dependents <==>
            forall id :: id in s.dependents[d] ==> id !in Gone(s, source) && !Differs(cfg, s, source, id)
  {
    var gone, log := Gone(s, source), RunLog(cfg, s, source);
    StepsSpare(cfg, Start(s, source), source);
    SparedTwice(s.dependents, gone, Members(log));
    RewrittenOnce(cfg, s, source, []);
    assert [] + log == log;
    assert forall id :: id in Members(log) <==> Differs(cfg, s, source, id);
    assert d in Indexed(cfg, s, source).dependents <==> s.dependents[d] !! gone + Members(log);
  }
}
