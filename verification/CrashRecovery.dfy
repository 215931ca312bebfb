/** What a killed run leaves behind, and what the next complete run repairs. */
module CrashRecovery {
  import opened CatalogStore
  import opened Indexing
  import opened IndexerRuns
  import opened TagOutcome

  // ---------------------------------------------------------------------------
  // Stores that differ in one table
  // ---------------------------------------------------------------------------

  /** Equal but for the row of `id`, what depends on it and the tags under `q`. */
  predicate AgreeOff(a: State, b: State, id: TableId, q: string) {
    && a.tables - {id} == b.tables - {id} && a.tags - {q} == b.tags - {q}
    && Spared(a.dependents, {id}) == Spared(b.dependents, {id})
  }

  lemma {:induction false} AgreeOffElsewhere(a: State, b: State, id: TableId, q: string, other: TableId)
    requires AgreeOff(a, b, id, q) && other != id
    ensures SameEntry(a, b, other)
  {
    assert other in a.tables <==> other in a.tables - {id};
    assert other in b.tables <==> other in b.tables - {id};
    if other in a.tables {
      assert (a.tables - {id})[other] == a.tables[other];
      assert (b.tables - {id})[other] == b.tables[other];
    }
  }

  lemma {:induction false} SparedAgrees(a: map<string, set<TableId>>, b: map<string, set<TableId>>, k: TableId, id: TableId)
    requires Spared(a, {id}) == Spared(b, {id})
    ensures Spared(Spared(a, {k}), {id}) == Spared(Spared(b, {k}), {id})
  {
    SparedTwice(a, {k}, {id});
    SparedTwice(a, {id}, {k});
    SparedTwice(b, {k}, {id});
    SparedTwice(b, {id}, {k});
    assert {k} + {id} == {id} + {k};
  }

  lemma {:induction false} TablesAgree(a: map<TableId, Entry>, b: map<TableId, Entry>, k: TableId, v: Entry, id: TableId)
    requires a - {id} == b - {id}
    ensures a[k := v] - {id} == b[k := v] - {id}
    ensures k == id ==> a[k := v] == b[k := v]
  {
    forall i | i != id ensures (i in a <==> i in b) && (i in a ==> a[i] == b[i]) {
      assert i in a <==> i in a - {id};
      assert i in b <==> i in b - {id};
      if i in a { assert (a - {id})[i] == (b - {id})[i]; }
    }
  }

  lemma {:induction false} TagsAgree(a: map<string, map<string, Tag>>, b: map<string, map<string, Tag>>, n: string,
                                     v: map<string, Tag>, q: string)
    requires a - {q} == b - {q}
    ensures WithTags(a, n, v) - {q} == WithTags(b, n, v) - {q}
    ensures n == q ==> WithTags(a, n, v) == WithTags(b, n, v)
  {
    forall i | i != q ensures (i in a <==> i in b) && (i in a ==> a[i] == b[i]) {
      assert i in a <==> i in a - {q};
      assert i in b <==> i in b - {q};
      if i in a { assert (a - {q})[i] == (b - {q})[i]; }
    }
  }

  lemma {:induction false} PersistAgrees(cfg: Config, a: State, b: State, u: Table, id: TableId, q: string)
    requires AgreeOff(a, b, id, q)
    ensures AgreeOff(Persisted(cfg, a, u), Persisted(cfg, b, u), id, q)
    ensures u.id == id && Qualified(id) == q ==> Persisted(cfg, a, u) == Persisted(cfg, b, u)
  {
    var x, y, n := Persisted(cfg, a, u), Persisted(cfg, b, u), Qualified(u.id);
    TablesAgree(a.tables, b.tables, u.id, EntryOf(cfg, u), id);
    TagsAgree(a.tags, b.tags, n, TagsOf(cfg, u), q);
    SparedAgrees(a.dependents, b.dependents, u.id, id);
  }

  /** A difference in one table neither spreads nor, without a namesake, heals while others are stepped through. */
  lemma {:induction false} StepsAgree(cfg: Config, a: State, b: State, ts: seq<Table>, id: TableId, q: string)
    requires AgreeOff(a, b, id, q) && forall i :: 0 <= i < |ts| ==> ts[i].id != id
    ensures AgreeOff(Steps(cfg, a, ts), Steps(cfg, b, ts), id, q)
    decreases |ts|
  {
    if ts != [] {
      AgreeOffElsewhere(a, b, id, q, ts[0].id);
      SameEntrySameDiff(cfg, a, b, ts[0]);
      PersistAgrees(cfg, a, b, ts[0], id, q);
      StepsAgree(cfg, TableStep(cfg, a, ts[0]), TableStep(cfg, b, ts[0]), ts[1..], id, q);
    }
  }

  lemma {:induction false} AgreeEverywhere(a: State, b: State, id: TableId, q: string)
    requires AgreeOff(a, b, id, q)
    ensures a == b <==> SameEntry(a, b, id) && SameTags(a, b, q) && a.dependents == b.dependents
  {
    if SameEntry(a, b, id) && SameTags(a, b, q) && a.dependents == b.dependents {
      forall i ensures (i in a.tables <==> i in b.tables) && (i in a.tables ==> a.tables[i] == b.tables[i]) {
        if i != id { AgreeOffElsewhere(a, b, id, q, i); }
      }
      assert a.tables == b.tables;
      forall n ensures (n in a.tags <==> n in b.tags) && (n in a.tags ==> a.tags[n] == b.tags[n]) {
        assert n != q ==> (n in a.tags <==> n in a.tags - {q}) && (n in b.tags <==> n in b.tags - {q});
        if n != q && n in a.tags { assert (a.tags - {q})[n] == (b.tags - {q})[n]; }
      }
      assert a.tags == b.tags;
    }
  }

  lemma {:induction false} SameDependents(cfg: Config, a: State, b: State, ts: seq<Table>)
    requires DistinctTables(ts) && a.dependents == b.dependents && forall i :: 0 <= i < |ts| ==> SameEntry(a, b, ts[i].id)
    ensures Steps(cfg, a, ts).dependents == Steps(cfg, b, ts).dependents
    decreases |ts|
  {
    if ts != [] {
      var x, y, tail := TableStep(cfg, a, ts[0]), TableStep(cfg, b, ts[0]), ts[1..];
      SameEntrySameDiff(cfg, a, b, ts[0]);
      forall i | 0 <= i < |tail| ensures SameEntry(x, y, tail[i].id) {
        assert tail[i] == ts[i + 1];
        StepFrame(cfg, a, ts[0], tail[i].id);
        StepFrame(cfg, b, ts[0], tail[i].id);
      }
      SameDependents(cfg, x, y, tail);
    }
  }

  /** Stepping through other tables makes two such stores equal iff the row never differed, and either
      the tags did not or some namesake is retagged on the way. */
  lemma {:induction false} DifferenceStays(cfg: Config, a: State, b: State, ts: seq<Table>, id: TableId, q: string)
    requires AgreeOff(a, b, id, q) && DistinctTables(ts) && forall i :: 0 <= i < |ts| ==> ts[i].id != id
    requires a.dependents == b.dependents
    ensures Steps(cfg, a, ts) == Steps(cfg, b, ts) <==>
            SameEntry(a, b, id) && (SameTags(a, b, q) || SomeRetagged(cfg, b, ts, q))
  {
    StepsAgree(cfg, a, b, ts, id, q);
    AgreeEverywhere(Steps(cfg, a, ts), Steps(cfg, b, ts), id, q);
    StepsFrame(cfg, a, ts, id);
    StepsFrame(cfg, b, ts, id);
    forall i | 0 <= i < |ts| ensures SameEntry(a, b, ts[i].id) {
      AgreeOffElsewhere(a, b, id, q, ts[i].id);
    }
    SameDependents(cfg, a, b, ts);
    SameRetagged(cfg, a, b, ts, |ts|, q);
    LastIsSome(cfg, b, ts, |ts|, q);
    AllStepsTags(cfg, a, ts, q);
    AllStepsTags(cfg, b, ts, q);
  }

  // ---------------------------------------------------------------------------
  // Killed between two writes of one table
  // ---------------------------------------------------------------------------

  /** The writes that follow the fingerprints. */
  predicate DerivedOp(t: Table, op: Op) {
    match op
    case PutDescriptions(id, _) => id == t.id
    case PutEmbeddings(id, _) => id == t.id
    case PutTags(q, _) => q == Qualified(t.id)
    case _ => false
  }

  /** What later writes leave alone: the other tables, and this table's columns and fingerprints. */
  predicate OnlyDerived(a: State, b: State, t: Table) {
    && AgreeOff(a, b, t.id, Qualified(t.id))
    && a.tables.Keys == b.tables.Keys
    && CachedFingerprints(a, t.id) == CachedFingerprints(b, t.id)
    && a.dependents == b.dependents
  }

  lemma {:induction false} DerivedStep(s: State, t: Table, op: Op)
    requires DerivedOp(t, op)
    ensures OnlyDerived(Apply(s, op), s, t)
  {
    var q := Qualified(t.id);
    var r := Apply(s, op);
    assert r.tables - {t.id} == s.tables - {t.id};
    assert r.tags - {q} == s.tags - {q};
  }

  lemma {:induction false} DerivedSteps(s: State, t: Table, ops: seq<Op>)
    requires forall i :: 0 <= i < |ops| ==> DerivedOp(t, ops[i])
    ensures OnlyDerived(ApplyAll(s, ops), s, t)
    decreases |ops|
  {
    if ops != [] {
      DerivedStep(s, t, ops[0]);
      DerivedSteps(Apply(s, ops[0]), t, ops[1..]);
    }
  }

  function DerivedWrites(cfg: Config, t: Table): seq<Op> {
    DescriptionWrites(cfg, t) + (EmbeddingWrites(cfg, t) + [PutTags(Qualified(t.id), TagsOf(cfg, t))])
  }

  lemma {:induction false} DerivedWritesAreDerived(cfg: Config, t: Table)
    ensures forall i :: 0 <= i < |DerivedWrites(cfg, t)| ==> DerivedOp(t, DerivedWrites(cfg, t)[i])
  {
  }

  /** The store after the first `w` writes of a table. */
  function Killed(cfg: Config, s: State, t: Table, w: nat): State
    requires w <= |Writes(cfg, t)|
  {
    ApplyAll(s, Writes(cfg, t)[..w])
  }

  lemma {:induction false} FirstTwoWrites(cfg: Config, s: State, t: Table)
    ensures var e := Entry(t, cfg.rowCount(t), map[], map[], map[]);
            && Killed(cfg, s, t, 0) == s
            && Killed(cfg, s, t, 1) == WithEntry(s, t, e)
            && Killed(cfg, s, t, 2) == WithEntry(s, t, e.(fingerprints := FingerprintsOf(cfg, t)))
  {
    var ops := Writes(cfg, t);
    EntryWrites(cfg, s, t);
    assert ops[..0] == [] && ops[..1] == [PutTable(t, cfg.rowCount(t))];
    assert ops[..2] == ops[..1] + [PutFingerprints(t.id, FingerprintsOf(cfg, t))];
    ApplyAppend(s, ops[..1], [PutFingerprints(t.id, FingerprintsOf(cfg, t))]);
  }

  lemma {:induction false} LaterWrites(cfg: Config, s: State, t: Table, w: nat)
    requires 2 <= w <= |Writes(cfg, t)|
    ensures OnlyDerived(Killed(cfg, s, t, w), Killed(cfg, s, t, 2), t)
  {
    var ops, tail := Writes(cfg, t), DerivedWrites(cfg, t);
    assert ops == ops[..2] + tail;
    assert ops[..w] == ops[..2] + tail[..w - 2];
    ApplyAppend(s, ops[..2], tail[..w - 2]);
    DerivedWritesAreDerived(cfg, t);
    DerivedSteps(Killed(cfg, s, t, 2), t, tail[..w - 2]);
  }

  /** The order of a table's writes: row, fingerprints, descriptions, embeddings, and the tags last of all. */
  lemma {:induction false} KilledStages(cfg: Config, s: State, t: Table, w: nat)
    requires 0 < w < |Writes(cfg, t)|
    ensures Killed(cfg, s, t, w).tags == s.tags
    ensures Killed(cfg, s, t, w).tables == s.tables[t.id := Entry(
              t, cfg.rowCount(t), if w > 1 then FingerprintsOf(cfg, t) else map[],
              if w > 2 then DescriptionsOf(cfg, t) else map[], if w > 3 then EmbeddingsOf(cfg, t) else map[])]
  {
    FirstTwoWrites(cfg, s, t);
    EntryWrites(cfg, s, t);
    var ops := Writes(cfg, t);
    if w > 2 {
      assert ops[..3] == ops[..2] + DescriptionWrites(cfg, t);
      ApplyAppend(s, ops[..2], DescriptionWrites(cfg, t));
    }
    if w > 3 {
      assert ops[..4] == ops[..3] + EmbeddingWrites(cfg, t);
      ApplyAppend(s, ops[..3], EmbeddingWrites(cfg, t));
    }
  }

  lemma {:induction false} EntryAgrees(s: State, t: Table, e: Entry)
    ensures AgreeOff(WithEntry(s, t, e), s, t.id, Qualified(t.id))
    ensures WithEntry(s, t, e).tables.Keys == s.tables.Keys + {t.id}
  {
    assert WithEntry(s, t, e).tables - {t.id} == s.tables - {t.id};
    SparedTwice(s.dependents, {t.id}, {t.id});
  }

  /** A killed table differs from the store before it, and from the finished table, only in itself; its
      fingerprints are gone after one write and complete after two. */
  lemma {:induction false} KilledShape(cfg: Config, s: State, t: Table, w: nat)
    requires w <= |Writes(cfg, t)|
    ensures AgreeOff(Killed(cfg, s, t, w), s, t.id, Qualified(t.id))
    ensures Killed(cfg, s, t, w).tables.Keys <= s.tables.Keys + {t.id}
    ensures w == 0 ==> Killed(cfg, s, t, w) == s
    ensures w > 0 ==> Killed(cfg, s, t, w).dependents == Spared(s.dependents, {t.id})
    ensures w == 1 ==> Cached(Killed(cfg, s, t, w), t.id) == map[]
    ensures w >= 2 ==> Cached(Killed(cfg, s, t, w), t.id) == NewStructural(cfg, t)
  {
    var e := Entry(t, cfg.rowCount(t), map[], map[], map[]);
    var f := e.(fingerprints := FingerprintsOf(cfg, t));
    FirstTwoWrites(cfg, s, t);
    EntryAgrees(s, t, e);
    EntryAgrees(s, t, f);
    if w >= 2 {
      LaterWrites(cfg, s, t, w);
      assert CachedFingerprints(WithEntry(s, t, f), t.id) == FingerprintsOf(cfg, t);
      assert StructuralOf(FingerprintsOf(cfg, t)) == NewStructural(cfg, t);
    }
  }

  lemma {:induction false} PersistedAgrees(cfg: Config, s: State, t: Table)
    ensures AgreeOff(Persisted(cfg, s, t), s, t.id, Qualified(t.id))
  {
    var p, q := Persisted(cfg, s, t), Qualified(t.id);
    assert p.tables - {t.id} == s.tables - {t.id};
    assert p.tags - {q} == s.tags - {q};
    SparedTwice(s.dependents, {t.id}, {t.id});
  }

  lemma {:induction false} NothingVanished(cfg: Config, s: State, source: seq<Table>, k: nat, keys: set<TableId>)
    requires k < |source| && keys <= AbortedRun(cfg, s, source, k).tables.Keys + {source[k].id}
    ensures keys <= Ids(source)
  {
    StepsKeys(cfg, Start(s, source), source[..k]);
    PrefixIds(source, k);
    assert source[k].id in Ids(source);
    assert Start(s, source).tables.Keys <= Ids(source);
  }

  lemma {:induction false} StillUnchanged(cfg: Config, c: State, mid: State, done: seq<Table>, id: TableId, q: string)
    requires AllUnchanged(cfg, mid, done) && AgreeOff(c, mid, id, q)
    requires forall i :: 0 <= i < |done| ==> done[i].id != id
    ensures AllUnchanged(cfg, c, done)
  {
    forall i | 0 <= i < |done| ensures Unchanged(cfg, c, done[i]) {
      AgreeOffElsewhere(c, mid, id, q, done[i].id);
      SameEntrySameDiff(cfg, c, mid, done[i]);
    }
  }

  lemma {:induction false} StepsCons(cfg: Config, s: State, t: Table, tail: seq<Table>)
    ensures Steps(cfg, s, [t] + tail) == Steps(cfg, TableStep(cfg, s, t), tail)
  {
    assert ([t] + tail)[1..] == tail;
  }

  lemma {:induction false} StepsFrom(cfg: Config, s: State, ts: seq<Table>, k: nat)
    requires k < |ts|
    ensures Steps(cfg, s, ts) == Steps(cfg, TableStep(cfg, Steps(cfg, s, ts[..k]), ts[k]), ts[k + 1..])
  {
    assert ts == ts[..k] + ([ts[k]] + ts[k + 1..]);
    StepsAppend(cfg, s, ts[..k], [ts[k]] + ts[k + 1..]);
    StepsCons(cfg, Steps(cfg, s, ts[..k]), ts[k], ts[k + 1..]);
  }

  lemma {:induction false} SkipDone(cfg: Config, c: State, source: seq<Table>, k: nat)
    requires k < |source| && AllUnchanged(cfg, c, source[..k])
    ensures Steps(cfg, c, source) == Steps(cfg, TableStep(cfg, c, source[k]), source[k + 1..])
  {
    NothingToDo(cfg, c, source[..k]);
    StepsFrom(cfg, c, source, k);
  }

  /** From a store that differs from the aborted one only in table `k`, a run goes straight to that table. */
  lemma {:induction false} RunFrom(cfg: Config, s: State, source: seq<Table>, k: nat, c: State)
    requires DistinctTables(source) && k < |source|
    requires AgreeOff(c, AbortedRun(cfg, s, source, k), source[k].id, Qualified(source[k].id))
    requires c.tables.Keys <= AbortedRun(cfg, s, source, k).tables.Keys + {source[k].id}
    ensures Indexed(cfg, c, source) == Steps(cfg, TableStep(cfg, c, source[k]), source[k + 1..])
  {
    AfterAbort(cfg, s, source, k);
    NothingVanished(cfg, s, source, k, c.tables.Keys);
    NothingGone(c, source);
    StillUnchanged(cfg, c, AbortedRun(cfg, s, source, k), source[..k], source[k].id, Qualified(source[k].id));
    SkipDone(cfg, c, source, k);
  }

  lemma {:induction false} FullRunFrom(cfg: Config, s: State, source: seq<Table>, k: nat)
    requires k < |source|
    ensures Indexed(cfg, s, source) ==
            Steps(cfg, TableStep(cfg, AbortedRun(cfg, s, source, k), source[k]), source[k + 1..])
  {
    StepsFrom(cfg, Start(s, source), source, k);
  }

  /** The next run takes the killed table up again iff nothing of it was written, or only its row and it
      has columns. */
  predicate Retried(t: Table, w: nat) {
    w == 0 || (w == 1 && t.columns != [])
  }

  lemma {:induction false} RetriedIff(cfg: Config, s: State, t: Table, w: nat)
    requires w <= |Writes(cfg, t)| && !Unchanged(cfg, s, t)
    ensures Unchanged(cfg, Killed(cfg, s, t, w), t) <==> !Retried(t, w)
  {
    var c := Killed(cfg, s, t, w);
    KilledShape(cfg, s, t, w);
    UnchangedIff(cfg, c, t);
    NoColumns(cfg, t);
  }

  /** The tables behind `k` are compared with the entries the run began with. */
  lemma {:induction false} LaterRetagged(cfg: Config, s: State, source: seq<Table>, k: nat, q: string)
    requires DistinctTables(source) && k < |source|
    ensures SomeRetagged(cfg, Persisted(cfg, AbortedRun(cfg, s, source, k), source[k]), source[k + 1..], q)
            == SomeRetagged(cfg, s, source[k + 1..], q)
  {
    var rest, mid := source[k + 1..], AbortedRun(cfg, s, source, k);
    var p := Persisted(cfg, mid, source[k]);
    StartKeepsEntries(s, source);
    forall i | 0 <= i < |rest| ensures SameEntry(p, s, rest[i].id) {
      assert rest[i] == source[k + 1 + i];
      StepsFrame(cfg, Start(s, source), source[..k], rest[i].id);
    }
    SameRetagged(cfg, p, s, rest, |rest|, q);
    LastIsSome(cfg, p, rest, |rest|, q);
    LastIsSome(cfg, s, rest, |rest|, q);
  }

  /** The lost writes make no difference in the end: the row is as they would have left it, and so are the
      tags, unless a later table of the same dotted name is changed and writes them anew. */
  predicate NothingLost(cfg: Config, s: State, source: seq<Table>, k: nat, c: State)
    requires k < |source|
  {
    var t, p := source[k], Persisted(cfg, AbortedRun(cfg, s, source, k), source[k]);
    SameEntry(c, p, t.id) && (SameTags(c, p, Qualified(t.id)) || SomeRetagged(cfg, s, source[k + 1..], Qualified(t.id)))
  }

  lemma {:induction false} SkippedCrash(cfg: Config, s: State, source: seq<Table>, k: nat, c: State)
    requires DistinctTables(source) && k < |source|
    requires AgreeOff(c, AbortedRun(cfg, s, source, k), source[k].id, Qualified(source[k].id))
    requires c.dependents == Spared(AbortedRun(cfg, s, source, k).dependents, {source[k].id})
    ensures var t, p, rest := source[k], Persisted(cfg, AbortedRun(cfg, s, source, k), source[k]), source[k + 1..];
            && AgreeOff(Steps(cfg, c, rest), Steps(cfg, p, rest), t.id, Qualified(t.id))
            && (Steps(cfg, c, rest) == Steps(cfg, p, rest) <==> NothingLost(cfg, s, source, k, c))
  {
    var mid, t, rest := AbortedRun(cfg, s, source, k), source[k], source[k + 1..];
    PersistedAgrees(cfg, mid, t);
    StepsAgree(cfg, c, Persisted(cfg, mid, t), rest, t.id, Qualified(t.id));
    DifferenceStays(cfg, c, Persisted(cfg, mid, t), rest, t.id, Qualified(t.id));
    LaterRetagged(cfg, s, source, k, Qualified(t.id));
  }

  /** A run killed after `w` writes of table `k`, then a complete one.  Everything but that table's own
      row, derived data and tags is as after an undisturbed run.  The whole store is iff the table is
      retried or nothing is lost. */
  lemma {:induction false} TableCrash(cfg: Config, s: State, source: seq<Table>, k: nat, w: nat)
    requires DistinctTables(source) && k < |source| && w <= |Writes(cfg, source[k])|
    requires !Unchanged(cfg, AbortedRun(cfg, s, source, k), source[k])
    ensures var t := source[k];
            var c := Killed(cfg, AbortedRun(cfg, s, source, k), t, w);
            && AgreeOff(Indexed(cfg, c, source), Indexed(cfg, s, source), t.id, Qualified(t.id))
            && (Indexed(cfg, c, source) == Indexed(cfg, s, source) <==> Retried(t, w) || NothingLost(cfg, s, source, k, c))
  {
    var mid, t := AbortedRun(cfg, s, source, k), source[k];
    var c := Killed(cfg, mid, t, w);
    KilledShape(cfg, mid, t, w);
    RetriedIff(cfg, mid, t, w);
    RunFrom(cfg, s, source, k, c);
    FullRunFrom(cfg, s, source, k);
    PersistAgrees(cfg, c, mid, t, t.id, Qualified(t.id));
    if w > 0 { SkippedCrash(cfg, s, source, k, c); }
  }
}
