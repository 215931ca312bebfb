/** What the counters of a run mean, and when a dry run predicts them. */
module IndexerCounts {
  import opened CatalogStore
  import opened Indexing
  import opened IndexerRuns

  /** The counters over the first `n` tables when every table is compared with one fixed store. */
  function FixedCounts(cfg: Config, s: State, ts: seq<Table>, n: nat): Counts
    requires n <= |ts|
    decreases n, cfg
  {
    if n == 0 then NO_COUNTS else Plus(FixedCounts(cfg, s, ts, n - 1), TableCounts(cfg, s, ts[n - 1]))
  }

  lemma {:induction false} SameHere(cfg: Config, s: State, start: State, ts: seq<Table>, i: nat)
    requires DistinctTables(ts) && i < |ts| && SameEntry(start, s, ts[i].id)
    ensures TableCounts(cfg, Steps(cfg, start, ts[..i]), ts[i]) == TableCounts(cfg, s, ts[i])
  {
    var here := Steps(cfg, start, ts[..i]);
    StepsFrame(cfg, start, ts[..i], ts[i].id);
    SameEntrySameDiff(cfg, here, s, ts[i]);
  }

  /** Both ways of counting the first `n` tables agree. */
  predicate CountsAgree(cfg: Config, s: State, start: State, ts: seq<Table>, n: nat)
    requires n <= |ts|
  {
    StepCounts(cfg, start, ts[..n]) == FixedCounts(cfg, s, ts, n)
  }

  lemma {:induction false} CountsAgreeNext(cfg: Config, s: State, start: State, ts: seq<Table>, n: nat)
    requires DistinctTables(ts) && n < |ts| && SameEntry(start, s, ts[n].id) && CountsAgree(cfg, s, start, ts, n)
    ensures CountsAgree(cfg, s, start, ts, n + 1)
  {
    OneMoreTable(cfg, start, ts, n);
    SameHere(cfg, s, start, ts, n);
  }

  /** Although the run writes as it goes, every table is counted as against the store it began with. */
  lemma {:induction false} StepsCountAsFixed(cfg: Config, s: State, start: State, ts: seq<Table>, n: nat)
    requires DistinctTables(ts) && n <= |ts| && forall i :: 0 <= i < |ts| ==> SameEntry(start, s, ts[i].id)
    ensures CountsAgree(cfg, s, start, ts, n)
  {
    if n > 0 {
      StepsCountAsFixed(cfg, s, start, ts, n - 1);
      CountsAgreeNext(cfg, s, start, ts, n - 1);
    }
  }

  lemma {:induction false} RunCountsAsFixed(cfg: Config, s: State, source: seq<Table>)
    requires DistinctTables(source)
    ensures ResultOf(cfg, s, source) == IndexResult(|source|, |Gone(s, source)|, FixedCounts(cfg, s, source, |source|))
  {
    var start := Start(s, source);
    forall i | 0 <= i < |source| ensures SameEntry(start, s, source[i].id) {
      assert source[i].id in Ids(source);
    }
    StepsCountAsFixed(cfg, s, start, source, |source|);
    assert source[..|source|] == source;
  }

  lemma {:induction false} StepsChanged(cfg: Config, s: State, ts: seq<Table>)
    ensures StepCounts(cfg, s, ts).tables.changed == |Rewritten(cfg, s, ts)|
    ensures StepCounts(cfg, s, ts).tables.changed + StepCounts(cfg, s, ts).tables.same == |ts|
    decreases |ts|
  {
    if ts != [] {
      StepsChanged(cfg, TableStep(cfg, s, ts[0]), ts[1..]);
    }
  }

  /** The tables counted as changed are the rewritten ones, those counted as unchanged the rest of the
      source, and those counted as removed the cached ones it no longer lists. */
  lemma {:induction false} TableCounters(cfg: Config, s: State, source: seq<Table>)
    requires DistinctTables(source)
    ensures var r := ResultOf(cfg, s, source);
            && r.tablesSeen == |source|
            && r.tablesRemoved == |set id | id in s.tables && id !in Ids(source)|
            && r.counts.tables.changed == |RunLog(cfg, s, source)|
            && r.counts.tables.same == |source| - |RunLog(cfg, s, source)|
  {
    StepsChanged(cfg, Start(s, source), source);
  }

  lemma {:induction false} EmbeddingPerDescription(cfg: Config, t: Table)
    ensures |EmbeddingsOf(cfg, t)| == if cfg.embed.Some? then |DescriptionsOf(cfg, t)| else 0
  {
    if cfg.embed.Some? {
      assert EmbeddingsOf(cfg, t).Keys == DescriptionsOf(cfg, t).Keys;
      assert |EmbeddingsOf(cfg, t)| == |EmbeddingsOf(cfg, t).Keys|;
      assert |DescriptionsOf(cfg, t)| == |DescriptionsOf(cfg, t).Keys|;
    }
  }

  /** A changed table counts the columns that are new to the cache, those cached with another structural
      hash, those the source no longer has, the descriptions the pipeline returned and their embeddings;
      an unchanged table counts nothing. */
  lemma {:induction false} ColumnCounters(cfg: Config, s: State, t: Table)
    ensures var c, old_ := TableCounts(cfg, s, t), CachedFingerprints(s, t.id);
            if Unchanged(cfg, s, t) then
              c == Counts(TableTally(0, 1), ColumnTally(0, 0, 0), TextTally(0, 0))
            else
              && c.tables == TableTally(1, 0)
              && c.columns.added == |set x | x in ColumnNames(t) && x !in old_|
              && c.columns.changed == |set x | x in ColumnNames(t) && x in old_ && old_[x].structural != cfg.structural(t, x)|
              && c.columns.removed == |set x | x in old_ && x !in ColumnNames(t)|
              && c.texts.descriptions == (if cfg.enrich.Some? then |cfg.enrich.value(t)| else 0)
              && c.texts.embeddings == (if cfg.embed.Some? then c.texts.descriptions else 0)
  {
    var new_, old_, cached := NewStructural(cfg, t), CachedFingerprints(s, t.id), Cached(s, t.id);
    var d := DiffOf(cached, new_);
    assert d.added == set x | x in ColumnNames(t) && x !in old_;
    assert d.changed == set x | x in ColumnNames(t) && x in old_ && old_[x].structural != cfg.structural(t, x);
    assert d.removed == set x | x in old_ && x !in ColumnNames(t);
    EmbeddingPerDescription(cfg, t);
  }

  // ---------------------------------------------------------------------------
  // The dry run
  // ---------------------------------------------------------------------------

  /** Everything but the two enrichment counters. */
  function Structure(c: Counts): Counts {
    c.(texts := TextTally(0, 0))
  }

  /** The pipeline keys its answers by column, so it never returns more of them. */
  predicate AtMostOneEach(cfg: Config, ts: seq<Table>) {
    forall i :: 0 <= i < |ts| ==> |DescriptionsOf(cfg, ts[i])| <= |ts[i].columns|
  }

  predicate Predicts(dry: Counts, done: Counts) {
    && Structure(dry) == Structure(done)
    && dry.texts.descriptions >= done.texts.descriptions && dry.texts.embeddings >= done.texts.embeddings
  }

  /** The table is not enriched, or gets a description for each of its columns. */
  predicate Described(cfg: Config, s: State, t: Table) {
    Unchanged(cfg, s, t) || cfg.enrich.None? || |DescriptionsOf(cfg, t)| == |t.columns|
  }

  lemma {:induction false} DryTable(cfg: Config, s: State, t: Table)
    requires |DescriptionsOf(cfg, t)| <= |t.columns|
    ensures var dry := DryTableCounts(cfg, s, t, cfg.enrich.Some?, cfg.embed.Some?);
            var done := TableCounts(cfg, s, t);
            Predicts(dry, done) && (dry == done <==> Described(cfg, s, t))
  {
    EmbeddingPerDescription(cfg, t);
  }

  lemma {:induction false} PredictionsAdd(a: Counts, b: Counts, x: Counts, y: Counts)
    requires Predicts(a, x) && Predicts(b, y)
    ensures Predicts(Plus(a, b), Plus(x, y))
    ensures Plus(a, b) == Plus(x, y) <==> a == x && b == y
  {
  }

  predicate AllDescribed(cfg: Config, s: State, ts: seq<Table>, n: nat)
    requires n <= |ts|
    decreases n, cfg
  {
    n == 0 || (AllDescribed(cfg, s, ts, n - 1) && Described(cfg, s, ts[n - 1]))
  }

  lemma {:induction false} AllDescribedMeans(cfg: Config, s: State, ts: seq<Table>, n: nat)
    requires n <= |ts|
    ensures AllDescribed(cfg, s, ts, n) <==> forall i :: 0 <= i < n ==> Described(cfg, s, ts[i])
  {
    if n > 0 { AllDescribedMeans(cfg, s, ts, n - 1); }
  }

  predicate Foresees(dry: Counts, done: Counts, all: bool) {
    Predicts(dry, done) && (dry == done <==> all)
  }

  lemma {:induction false} ForeseenSum(a: Counts, x: Counts, all: bool, b: Counts, y: Counts, described: bool)
    requires Foresees(a, x, all) && Foresees(b, y, described)
    ensures Foresees(Plus(a, b), Plus(x, y), all && described)
  {
    PredictionsAdd(a, b, x, y);
  }

  /** The prediction for the first `n` tables. */
  predicate Foreseen(cfg: Config, s: State, ts: seq<Table>, n: nat)
    requires n <= |ts|
  {
    Foresees(DryCounts(cfg, s, ts, n, cfg.enrich.Some?, cfg.embed.Some?), FixedCounts(cfg, s, ts, n),
             AllDescribed(cfg, s, ts, n))
  }

  lemma {:induction false} DryStep(cfg: Config, s: State, ts: seq<Table>, n: nat)
    requires n < |ts| && |DescriptionsOf(cfg, ts[n])| <= |ts[n].columns| && Foreseen(cfg, s, ts, n)
    ensures Foreseen(cfg, s, ts, n + 1)
  {
    var t, e, b := ts[n], cfg.enrich.Some?, cfg.embed.Some?;
    DryTable(cfg, s, t);
    ForeseenSum(DryCounts(cfg, s, ts, n, e, b), FixedCounts(cfg, s, ts, n), AllDescribed(cfg, s, ts, n),
                DryTableCounts(cfg, s, t, e, b), TableCounts(cfg, s, t), Described(cfg, s, t));
  }

  lemma {:induction false} DryPrefix(cfg: Config, s: State, ts: seq<Table>, n: nat)
    requires AtMostOneEach(cfg, ts) && n <= |ts|
    ensures Foreseen(cfg, s, ts, n)
  {
    for i := 0 to n
      invariant Foreseen(cfg, s, ts, i)
    {
      DryStep(cfg, s, ts, i);
    }
  }

  // ---------------------------------------------------------------------------
  // Totals
  // ---------------------------------------------------------------------------

  function AddedIn(c: Counts): nat { c.columns.added }
  function ChangedIn(c: Counts): nat { c.columns.changed }
  function RemovedIn(c: Counts): nat { c.columns.removed }
  function DescribedIn(c: Counts): nat { c.texts.descriptions }
  function EmbeddedIn(c: Counts): nat { c.texts.embeddings }

  /** A counter summed over the first `n` tables, each compared with the store a run begins with. */
  function Total(cfg: Config, s: State, ts: seq<Table>, n: nat, counter: Counts -> nat): nat
    requires n <= |ts|
    decreases n, cfg
  {
    if n == 0 then 0 else Total(cfg, s, ts, n - 1, counter) + counter(TableCounts(cfg, s, ts[n - 1]))
  }

  lemma {:induction false} FixedTotals(cfg: Config, s: State, ts: seq<Table>, n: nat)
    requires n <= |ts|
    ensures var c := FixedCounts(cfg, s, ts, n);
            && c.columns.added == Total(cfg, s, ts, n, AddedIn)
            && c.columns.changed == Total(cfg, s, ts, n, ChangedIn)
            && c.columns.removed == Total(cfg, s, ts, n, RemovedIn)
            && c.texts.descriptions == Total(cfg, s, ts, n, DescribedIn)
            && c.texts.embeddings == Total(cfg, s, ts, n, EmbeddedIn)
  {
    if n > 0 { FixedTotals(cfg, s, ts, n - 1); }
  }

  /** Every counter of a run is the sum of what its tables count. */
  lemma {:induction false} RunTotals(cfg: Config, s: State, source: seq<Table>)
    requires DistinctTables(source)
    ensures var c, n := ResultOf(cfg, s, source).counts, |source|;
            && c.columns.added == Total(cfg, s, source, n, AddedIn)
            && c.columns.changed == Total(cfg, s, source, n, ChangedIn)
            && c.columns.removed == Total(cfg, s, source, n, RemovedIn)
            && c.texts.descriptions == Total(cfg, s, source, n, DescribedIn)
            && c.texts.embeddings == Total(cfg, s, source, n, EmbeddedIn)
  {
    RunCountsAsFixed(cfg, s, source);
    FixedTotals(cfg, s, source, |source|);
  }

  lemma {:induction false} SameButTexts(a: Counts, b: Counts, x: Counts, y: Counts)
    requires a.tables == b.tables && a.columns == b.columns && x.tables == y.tables && x.columns == y.columns
    ensures Plus(a, x).tables == Plus(b, y).tables && Plus(a, x).columns == Plus(b, y).columns
  {
  }

  lemma {:induction false} DryTables(cfg: Config, s: State, ts: seq<Table>, n: nat, e: bool, b: bool)
    requires n <= |ts|
    ensures DryCounts(cfg, s, ts, n, e, b).tables == FixedCounts(cfg, s, ts, n).tables
    ensures DryCounts(cfg, s, ts, n, e, b).columns == FixedCounts(cfg, s, ts, n).columns
    decreases n
  {
    if n > 0 {
      DryTables(cfg, s, ts, n - 1, e, b);
      SameButTexts(DryCounts(cfg, s, ts, n - 1, e, b), FixedCounts(cfg, s, ts, n - 1),
                   DryTableCounts(cfg, s, ts[n - 1], e, b), TableCounts(cfg, s, ts[n - 1]));
    }
  }

  /** The dry run counts as changed exactly the tables a run would rewrite, whatever it would enrich. */
  lemma {:induction false} DryTableCounters(cfg: Config, s: State, source: seq<Table>, willEnrich: bool, willEmbed: bool)
    requires DistinctTables(source)
    ensures var r := DryResult(cfg, s, source, willEnrich, willEmbed);
            && r.tablesSeen == |source|
            && r.tablesRemoved == |set id | id in s.tables && id !in Ids(source)|
            && r.counts.tables.changed == |RunLog(cfg, s, source)|
            && r.counts.tables.same == |source| - |RunLog(cfg, s, source)|
  {
    TableCounters(cfg, s, source);
    RunCountsAsFixed(cfg, s, source);
    DryTables(cfg, s, source, |source|, willEnrich, willEmbed);
  }

  /** The dry run predicts the tables and columns of a completed run from the same store exactly, and
      its descriptions and embeddings from above; the whole result agrees iff every table that is
      enriched gets a description for each of its columns. */
  lemma {:induction false} DryRunFidelity(cfg: Config, s: State, source: seq<Table>)
    requires DistinctTables(source) && AtMostOneEach(cfg, source)
    ensures var dry := DryResult(cfg, s, source, cfg.enrich.Some?, cfg.embed.Some?);
            var done := ResultOf(cfg, s, source);
            && dry.tablesSeen == done.tablesSeen && dry.tablesRemoved == done.tablesRemoved
            && Predicts(dry.counts, done.counts)
            && (dry == done <==> forall i :: 0 <= i < |source| ==> Described(cfg, s, source[i]))
  {
    RunCountsAsFixed(cfg, s, source);
    DryPrefix(cfg, s, source, |source|);
    AllDescribedMeans(cfg, s, source, |source|);
    assert source[..|source|] == source;
  }

  // ---------------------------------------------------------------------------
  // Conservation
  // ---------------------------------------------------------------------------

  /** Cached columns of the first `n` tables. */
  function CachedColumns(s: State, ts: seq<Table>, n: nat): nat
    requires n <= |ts|
    decreases n, s
  {
    if n == 0 then 0 else CachedColumns(s, ts, n - 1) + |Cached(s, ts[n - 1].id)|
  }

  lemma {:induction false} DiffBalance(old_: map<string, string>, new_: map<string, string>)
    ensures |new_| + |DiffOf(old_, new_).removed| == |old_| + |DiffOf(old_, new_).added|
  {
    var d := DiffOf(old_, new_);
    var both := new_.Keys * old_.Keys;
    assert new_.Keys == both + d.added && both !! d.added;
    assert old_.Keys == both + d.removed && both !! d.removed;
    assert |new_| == |new_.Keys| && |old_| == |old_.Keys|;
  }

  lemma {:induction false} TableBalance(cfg: Config, s: State, end: State, t: Table)
    requires Cached(end, t.id) == NewStructural(cfg, t)
    ensures |Cached(end, t.id)| + TableCounts(cfg, s, t).columns.removed == |Cached(s, t.id)| + TableCounts(cfg, s, t).columns.added
    ensures TableCounts(cfg, s, t).tables.changed + TableCounts(cfg, s, t).tables.same == 1
  {
    DiffBalance(Cached(s, t.id), NewStructural(cfg, t));
    UnchangedIff(cfg, s, t);
  }

  /** The books balance over the first `n` tables. */
  predicate Balanced(cfg: Config, s: State, end: State, ts: seq<Table>, n: nat)
    requires n <= |ts|
  {
    var c := FixedCounts(cfg, s, ts, n);
    && CachedColumns(end, ts, n) + c.columns.removed == CachedColumns(s, ts, n) + c.columns.added
    && c.tables.changed + c.tables.same == n
  }

  lemma {:induction false} BalanceNext(cfg: Config, s: State, end: State, ts: seq<Table>, n: nat)
    requires n < |ts| && Cached(end, ts[n].id) == NewStructural(cfg, ts[n]) && Balanced(cfg, s, end, ts, n)
    ensures Balanced(cfg, s, end, ts, n + 1)
  {
    TableBalance(cfg, s, end, ts[n]);
  }

  lemma {:induction false} PrefixBalance(cfg: Config, s: State, end: State, ts: seq<Table>, n: nat)
    requires n <= |ts| && forall i :: 0 <= i < |ts| ==> Cached(end, ts[i].id) == NewStructural(cfg, ts[i])
    ensures Balanced(cfg, s, end, ts, n)
  {
    if n > 0 {
      PrefixBalance(cfg, s, end, ts, n - 1);
      BalanceNext(cfg, s, end, ts, n - 1);
    }
  }

  /** Over a completed run from any store, the cached columns of the source's tables grow by the columns
      reported added less those reported removed, and every table is reported changed or unchanged. */
  lemma {:induction false} ColumnConservation(cfg: Config, s: State, source: seq<Table>)
    requires DistinctTables(source)
    ensures var r := ResultOf(cfg, s, source);
            && CachedColumns(Indexed(cfg, s, source), source, |source|) + r.counts.columns.removed ==
               CachedColumns(s, source, |source|) + r.counts.columns.added
            && r.tablesSeen == r.counts.tables.changed + r.counts.tables.same
  {
    RunCountsAsFixed(cfg, s, source);
    CacheMatchesSource(cfg, s, source);
    PrefixBalance(cfg, s, Indexed(cfg, s, source), source, |source|);
    assert source[..|source|] == source;
  }
}
