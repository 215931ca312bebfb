/** One cache-aware indexing pass, its dry run, and the state both are measured against. */
module Indexing {
  import opened CatalogStore
  import opened Wrappers

  /** What a run is configured with, each part a pure function of the table it is handed.  `enrich` is
      absent without a pipeline, `embed` without an embedder, `classify` under `--no-pii-classify`. */
  datatype Config = Config(
    structural: (Table, string) -> string,
    semantic: (Table, string) -> string,
    enrich: Option<Table -> map<string, Description>>,
    embed: Option<Description -> Embedding>,
    rowCount: Table -> Option<int>,
    classify: Option<Table -> map<string, Tag>>)

  /** What the source lists: every table once. */
  predicate DistinctTables(source: seq<Table>) {
    forall i, j :: 0 <= i < j < |source| ==> source[i].id != source[j].id
  }

  function Ids(source: seq<Table>): set<TableId> {
    set i | 0 <= i < |source| :: source[i].id
  }

  // ---------------------------------------------------------------------------
  // The diff
  // ---------------------------------------------------------------------------

  function NewStructural(cfg: Config, t: Table): map<string, string> {
    map c | c in ColumnNames(t) :: cfg.structural(t, c)
  }

  function StructuralOf(fingerprints: map<string, Fingerprints>): map<string, string> {
    map c | c in fingerprints :: fingerprints[c].structural
  }

  function CachedFingerprints(s: State, id: TableId): map<string, Fingerprints> {
    if id in s.tables then s.tables[id].fingerprints else map[]
  }

  function Cached(s: State, id: TableId): map<string, string> {
    StructuralOf(CachedFingerprints(s, id))
  }

  datatype Diff = Diff(added: set<string>, removed: set<string>, changed: set<string>)

  function DiffOf(old_: map<string, string>, new_: map<string, string>): Diff {
    Diff(set c | c in new_ && c !in old_, set c | c in old_ && c !in new_, set c | c in new_ && c in old_ && new_[c] != old_[c])
  }

  predicate SameAt(old_: map<string, string>, new_: map<string, string>, c: string) {
    (c in old_ <==> c in new_) && (c in old_ ==> old_[c] == new_[c])
  }

  predicate SameHashes(old_: map<string, string>, new_: map<string, string>) {
    forall c {:trigger SameAt(old_, new_, c)} :: c in old_.Keys + new_.Keys ==> SameAt(old_, new_, c)
  }

  /** The cache already has these columns with these hashes. */
  predicate Unchanged(cfg: Config, s: State, t: Table) {
    SameHashes(Cached(s, t.id), NewStructural(cfg, t))
  }

  lemma {:induction false} SameHashesIff(old_: map<string, string>, new_: map<string, string>)
    ensures SameHashes(old_, new_) <==> old_ == new_
    ensures SameHashes(old_, new_) <==> DiffOf(old_, new_) == Diff({}, {}, {})
  {
    var d := DiffOf(old_, new_);
    if SameHashes(old_, new_) {
      forall c | c in old_.Keys + new_.Keys ensures (c in old_ <==> c in new_) && (c in old_ ==> old_[c] == new_[c]) {
        assert SameAt(old_, new_, c);
      }
      assert old_ == new_;
    }
    if d == Diff({}, {}, {}) {
      forall c | c in old_.Keys + new_.Keys ensures SameAt(old_, new_, c) {
        assert c !in d.added && c !in d.removed && c !in d.changed;
      }
    }
  }

  /** That is when the two maps are equal, and when the comparison finds nothing added, removed or changed. */
  lemma {:induction false} UnchangedIff(cfg: Config, s: State, t: Table)
    ensures Unchanged(cfg, s, t) <==> Cached(s, t.id) == NewStructural(cfg, t)
    ensures Unchanged(cfg, s, t) <==> DiffOf(Cached(s, t.id), NewStructural(cfg, t)) == Diff({}, {}, {})
  {
    SameHashesIff(Cached(s, t.id), NewStructural(cfg, t));
  }

  // ---------------------------------------------------------------------------
  // What a changed table writes, in order
  // ---------------------------------------------------------------------------

  function DescriptionsOf(cfg: Config, t: Table): map<string, Description> {
    match cfg.enrich
    case None => map[]
    case Some(enrich) => enrich(t)
  }

  function EmbeddingsOf(cfg: Config, t: Table): map<string, Embedding> {
    match cfg.embed
    case None => map[]
    case Some(embed) => map c | c in DescriptionsOf(cfg, t) :: embed(DescriptionsOf(cfg, t)[c])
  }

  function FingerprintsOf(cfg: Config, t: Table): map<string, Fingerprints> {
    map c | c in ColumnNames(t) :: Fingerprints(cfg.structural(t, c), cfg.semantic(t, c))
  }

  function TagsOf(cfg: Config, t: Table): map<string, Tag> {
    match cfg.classify
    case None => map[]
    case Some(classify) => classify(t)
  }

  function DescriptionWrites(cfg: Config, t: Table): seq<Op> {
    if DescriptionsOf(cfg, t) != map[] then [PutDescriptions(t.id, DescriptionsOf(cfg, t))] else []
  }

  function EmbeddingWrites(cfg: Config, t: Table): seq<Op> {
    if EmbeddingsOf(cfg, t) != map[] then [PutEmbeddings(t.id, EmbeddingsOf(cfg, t))] else []
  }

  function Writes(cfg: Config, t: Table): seq<Op> {
    [PutTable(t, cfg.rowCount(t))] + ([PutFingerprints(t.id, FingerprintsOf(cfg, t))]
      + (DescriptionWrites(cfg, t) + (EmbeddingWrites(cfg, t) + [PutTags(Qualified(t.id), TagsOf(cfg, t))])))
  }

  /** The entry a changed table leaves behind. */
  function EntryOf(cfg: Config, t: Table): Entry {
    Entry(t, cfg.rowCount(t), FingerprintsOf(cfg, t), DescriptionsOf(cfg, t), EmbeddingsOf(cfg, t))
  }

  function WithTags(tags: map<string, map<string, Tag>>, q: string, columnTags: map<string, Tag>): map<string, map<string, Tag>> {
    if columnTags == map[] then tags - {q} else tags[q := columnTags]
  }

  function Persisted(cfg: Config, s: State, t: Table): State {
    State(s.tables[t.id := EntryOf(cfg, t)], WithTags(s.tags, Qualified(t.id), TagsOf(cfg, t)),
          Spared(s.dependents, {t.id}))
  }

  // ---------------------------------------------------------------------------
  // The run as a function of the store
  // ---------------------------------------------------------------------------

  function Gone(s: State, source: seq<Table>): set<TableId> {
    set id | id in s.tables && id !in Ids(source)
  }

  /** The store without the given tables, what depends on them and the tags under their dotted names. */
  function Without(s: State, gone: set<TableId>): State {
    State(s.tables - gone, s.tags - (set id | id in gone :: Qualified(id)), Spared(s.dependents, gone))
  }

  function TableStep(cfg: Config, s: State, t: Table): State {
    if Unchanged(cfg, s, t) then s else Persisted(cfg, s, t)
  }

  function Steps(cfg: Config, s: State, ts: seq<Table>): State
    decreases |ts|, cfg
  {
    if ts == [] then s else Steps(cfg, TableStep(cfg, s, ts[0]), ts[1..])
  }

  /** The store after a complete run. */
  function Indexed(cfg: Config, s: State, source: seq<Table>): State {
    Steps(cfg, Without(s, Gone(s, source)), source)
  }

  datatype TableTally = TableTally(changed: nat, same: nat)
  datatype ColumnTally = ColumnTally(added: nat, changed: nat, removed: nat)
  datatype TextTally = TextTally(descriptions: nat, embeddings: nat)

  /** The counters of a run. */
  datatype Counts = Counts(tables: TableTally, columns: ColumnTally, texts: TextTally)

  function Plus(a: Counts, b: Counts): Counts {
    Counts(TableTally(a.tables.changed + b.tables.changed, a.tables.same + b.tables.same),
           ColumnTally(a.columns.added + b.columns.added, a.columns.changed + b.columns.changed,
                       a.columns.removed + b.columns.removed),
           TextTally(a.texts.descriptions + b.texts.descriptions, a.texts.embeddings + b.texts.embeddings))
  }

  function UnchangedTables(n: nat): Counts {
    Counts(TableTally(0, n), ColumnTally(0, 0, 0), TextTally(0, 0))
  }

  function ChangedTable(columns: ColumnTally, texts: TextTally): Counts {
    Counts(TableTally(1, 0), columns, texts)
  }

  const NO_COUNTS: Counts := UnchangedTables(0)

  /** What one table adds to the counters. */
  function TableCounts(cfg: Config, s: State, t: Table): Counts {
    var d := DiffOf(Cached(s, t.id), NewStructural(cfg, t));
    if Unchanged(cfg, s, t) then UnchangedTables(1)
    else ChangedTable(ColumnTally(|d.added|, |d.changed|, |d.removed|),
                      TextTally(|DescriptionsOf(cfg, t)|, |EmbeddingsOf(cfg, t)|))
  }

  function StepCounts(cfg: Config, s: State, ts: seq<Table>): Counts
    decreases |ts|, cfg
  {
    if ts == [] then NO_COUNTS
    else Plus(TableCounts(cfg, s, ts[0]), StepCounts(cfg, TableStep(cfg, s, ts[0]), ts[1..]))
  }

  datatype IndexResult = IndexResult(tablesSeen: nat, tablesRemoved: nat, counts: Counts)

  /** What a complete run returns. */
  function ResultOf(cfg: Config, s: State, source: seq<Table>): IndexResult {
    IndexResult(|source|, |Gone(s, source)|, StepCounts(cfg, Without(s, Gone(s, source)), source))
  }

  /** The tables whose rows a run rewrites, in order. */
  function Rewritten(cfg: Config, s: State, ts: seq<Table>): seq<TableId>
    decreases |ts|, cfg
  {
    if ts == [] then []
    else (if Unchanged(cfg, s, ts[0]) then [] else [ts[0].id]) + Rewritten(cfg, TableStep(cfg, s, ts[0]), ts[1..])
  }

  // ---------------------------------------------------------------------------
  // Facts the methods need
  // ---------------------------------------------------------------------------

  lemma {:induction false} ApplyOne(s: State, op: Op)
    ensures ApplyAll(s, [op]) == Apply(s, op)
  {
    assert ApplyAll(Apply(s, op), [op][1..]) == Apply(s, op);
  }

  /** A store whose fresh entry for `t` is `e`. */
  function WithEntry(s: State, t: Table, e: Entry): State {
    s.(tables := s.tables[t.id := e], dependents := Spared(s.dependents, {t.id}))
  }

  lemma {:induction false} EntryWrites(cfg: Config, s: State, t: Table)
    ensures var e := Entry(t, cfg.rowCount(t), map[], map[], map[]);
            var f := e.(fingerprints := FingerprintsOf(cfg, t));
            var d := f.(descriptions := DescriptionsOf(cfg, t));
            && ApplyAll(s, [PutTable(t, cfg.rowCount(t))]) == WithEntry(s, t, e)
            && ApplyAll(WithEntry(s, t, e), [PutFingerprints(t.id, FingerprintsOf(cfg, t))]) == WithEntry(s, t, f)
            && ApplyAll(WithEntry(s, t, f), DescriptionWrites(cfg, t)) == WithEntry(s, t, d)
            && ApplyAll(WithEntry(s, t, d), EmbeddingWrites(cfg, t)) == WithEntry(s, t, EntryOf(cfg, t))
  {
    var e := Entry(t, cfg.rowCount(t), map[], map[], map[]);
    var f := e.(fingerprints := FingerprintsOf(cfg, t));
    var d := f.(descriptions := DescriptionsOf(cfg, t));
    ApplyOne(s, PutTable(t, cfg.rowCount(t)));
    ApplyOne(WithEntry(s, t, e), PutFingerprints(t.id, FingerprintsOf(cfg, t)));
    ApplyOne(WithEntry(s, t, f), PutDescriptions(t.id, DescriptionsOf(cfg, t)));
    ApplyOne(WithEntry(s, t, d), PutEmbeddings(t.id, EmbeddingsOf(cfg, t)));
  }

  lemma {:induction false} WritesPersist(cfg: Config, s: State, t: Table)
    ensures ApplyAll(s, Writes(cfg, t)) == Persisted(cfg, s, t)
  {
    var e := Entry(t, cfg.rowCount(t), map[], map[], map[]);
    var f := e.(fingerprints := FingerprintsOf(cfg, t));
    var d := f.(descriptions := DescriptionsOf(cfg, t));
    var tags := [PutTags(Qualified(t.id), TagsOf(cfg, t))];
    EntryWrites(cfg, s, t);
    ApplyAppend(s, [PutTable(t, cfg.rowCount(t))], [PutFingerprints(t.id, FingerprintsOf(cfg, t))]
                + (DescriptionWrites(cfg, t) + (EmbeddingWrites(cfg, t) + tags)));
    ApplyAppend(WithEntry(s, t, e), [PutFingerprints(t.id, FingerprintsOf(cfg, t))],
                DescriptionWrites(cfg, t) + (EmbeddingWrites(cfg, t) + tags));
    ApplyAppend(WithEntry(s, t, f), DescriptionWrites(cfg, t), EmbeddingWrites(cfg, t) + tags);
    ApplyAppend(WithEntry(s, t, d), EmbeddingWrites(cfg, t), tags);
    ApplyOne(WithEntry(s, t, EntryOf(cfg, t)), tags[0]);
  }

  lemma {:induction false} WithoutNothing(s: State)
    ensures Without(s, {}) == s
  {
    assert (set id | id in {} && id in s.tables :: Qualified(id)) == {};
    assert s.tables - {} == s.tables && s.tags - {} == s.tags;
    SparedNone(s.dependents);
  }

  /** Dropping one more vanished table and wiping the tags under its dotted name. */
  lemma {:induction false} WithoutOneMore(s: State, done: set<TableId>, id: TableId)
    ensures Apply(Apply(Without(s, done), DropTable(id)), PutTags(Qualified(id), map[])) == Without(s, done + {id})
  {
    var names := set i | i in done :: Qualified(i);
    assert (set i | i in done + {id} :: Qualified(i)) == names + {Qualified(id)};
    assert s.tables - done - {id} == s.tables - (done + {id});
    assert s.tags - names - {Qualified(id)} == s.tags - (names + {Qualified(id)});
    SparedTwice(s.dependents, done, {id});
  }

  lemma {:induction false} StepsAppend(cfg: Config, s: State, a: seq<Table>, b: seq<Table>)
    ensures Steps(cfg, s, a + b) == Steps(cfg, Steps(cfg, s, a), b)
    decreases |a|
  {
    if a == [] {
      assert a + b == b;
    } else {
      assert (a + b)[0] == a[0] && (a + b)[1..] == a[1..] + b;
      StepsAppend(cfg, TableStep(cfg, s, a[0]), a[1..], b);
    }
  }

  lemma {:induction false} PlusAssoc(a: Counts, b: Counts, c: Counts)
    ensures Plus(Plus(a, b), c) == Plus(a, Plus(b, c)) && Plus(NO_COUNTS, c) == c && Plus(c, NO_COUNTS) == c
  {
  }

  lemma {:induction false} CountsAppend(cfg: Config, s: State, a: seq<Table>, b: seq<Table>)
    ensures StepCounts(cfg, s, a + b) == Plus(StepCounts(cfg, s, a), StepCounts(cfg, Steps(cfg, s, a), b))
    decreases |a|
  {
    if a == [] {
      assert a + b == b;
      PlusAssoc(NO_COUNTS, NO_COUNTS, StepCounts(cfg, s, b));
    } else {
      var next := TableStep(cfg, s, a[0]);
      assert (a + b)[0] == a[0] && (a + b)[1..] == a[1..] + b;
      CountsAppend(cfg, next, a[1..], b);
      PlusAssoc(TableCounts(cfg, s, a[0]), StepCounts(cfg, next, a[1..]), StepCounts(cfg, Steps(cfg, next, a[1..]), b));
    }
  }

  lemma {:induction false} OnlyTable(cfg: Config, s: State, ts: seq<Table>)
    requires |ts| == 1
    ensures Steps(cfg, s, ts) == TableStep(cfg, s, ts[0]) && StepCounts(cfg, s, ts) == TableCounts(cfg, s, ts[0])
  {
    var next := TableStep(cfg, s, ts[0]);
    assert ts[1..] == [];
    assert Steps(cfg, next, ts[1..]) == next && StepCounts(cfg, next, ts[1..]) == NO_COUNTS;
  }

  lemma {:induction false} OneMoreTable(cfg: Config, s: State, ts: seq<Table>, i: nat)
    requires i < |ts|
    ensures var here := Steps(cfg, s, ts[..i]);
            && Steps(cfg, s, ts[..i + 1]) == TableStep(cfg, here, ts[i])
            && StepCounts(cfg, s, ts[..i + 1]) == Plus(StepCounts(cfg, s, ts[..i]), TableCounts(cfg, here, ts[i]))
  {
    var last := ts[i..i + 1];
    assert ts[..i + 1] == ts[..i] + last;
    StepsAppend(cfg, s, ts[..i], last);
    CountsAppend(cfg, s, ts[..i], last);
    OnlyTable(cfg, Steps(cfg, s, ts[..i]), last);
  }

  // ---------------------------------------------------------------------------
  // The run
  // ---------------------------------------------------------------------------

  /** Profiling or enriching table `at` raised; nothing of it was written. */
  datatype Outcome = Completed(result: IndexResult) | Aborted(at: nat)

  method DropVanished(store: Store, source: seq<Table>) returns (removed: nat)
    modifies store
    ensures store.Contents() == Without(old(store.Contents()), Gone(old(store.Contents()), source))
    ensures removed == |Gone(old(store.Contents()), source)|
  {
    ghost var before := store.Contents();
    var removedTables := Gone(store.Contents(), source);
    var todo := removedTables;
    assert removedTables - todo == {};
    WithoutNothing(before);
    while todo != {}
      invariant todo <= removedTables && store.Contents() == Without(before, removedTables - todo)
      decreases todo
    {
      var id :| id in todo;
      WithoutOneMore(before, removedTables - todo, id);
      assert removedTables - (todo - {id}) == (removedTables - todo) + {id};
      todo := todo - {id};
      store.DeleteTable(id);
      store.WriteColumnPiiTags(Qualified(id), map[]);
    }
    assert removedTables - todo == removedTables;
    return |removedTables|;
  }

  /** Everything a changed table writes, once profiling and enrichment are done. */
  method PersistTable(store: Store, cfg: Config, t: Table, descriptions: map<string, Description>,
                      embeddings: map<string, Embedding>)
    requires descriptions == DescriptionsOf(cfg, t) && embeddings == EmbeddingsOf(cfg, t)
    modifies store
    ensures store.Contents() == Persisted(cfg, old(store.Contents()), t)
  {
    ghost var s := store.Contents();
    ghost var e := Entry(t, cfg.rowCount(t), map[], map[], map[]);
    ghost var f := e.(fingerprints := FingerprintsOf(cfg, t));
    ghost var d := f.(descriptions := descriptions);
    store.WriteTable(t, cfg.rowCount(t));
    assert store.Contents() == WithEntry(s, t, e);
    store.WriteTableFingerprints(t.id, FingerprintsOf(cfg, t));
    assert store.Contents() == WithEntry(s, t, f);
    if descriptions != map[] {
      store.WriteTableDescriptions(t.id, descriptions);
    }
    assert store.Contents() == WithEntry(s, t, d);
    if embeddings != map[] {
      store.WriteTableEmbeddings(t.id, embeddings);
    }
    assert store.Contents() == WithEntry(s, t, EntryOf(cfg, t));
    store.WriteColumnPiiTags(Qualified(t.id), TagsOf(cfg, t));
  }

  function DryTableCounts(cfg: Config, s: State, t: Table, willEnrich: bool, willEmbed: bool): Counts {
    var d := DiffOf(Cached(s, t.id), NewStructural(cfg, t));
    if Unchanged(cfg, s, t) then UnchangedTables(1)
    else ChangedTable(ColumnTally(|d.added|, |d.changed|, |d.removed|),
                      TextTally(if willEnrich then |t.columns| else 0,
                                if willEnrich && willEmbed then |t.columns| else 0))
  }

  /** The per-column comparison both passes share. */
  method DiffTable(cfg: Config, s: State, t: Table) returns (same: bool, columns: ColumnTally)
    ensures same == Unchanged(cfg, s, t)
    ensures TableCounts(cfg, s, t) == if same then UnchangedTables(1)
              else ChangedTable(columns, TextTally(|DescriptionsOf(cfg, t)|, |EmbeddingsOf(cfg, t)|))
    ensures forall e, b :: DryTableCounts(cfg, s, t, e, b) == if same then UnchangedTables(1)
              else ChangedTable(columns, TextTally(if e then |t.columns| else 0, if e && b then |t.columns| else 0))
  {
    var cachedStructural := Cached(s, t.id);
    var newStructural := NewStructural(cfg, t);
    var colAdded := set c | c in newStructural && c !in cachedStructural;
    var colRemoved := set c | c in cachedStructural && c !in newStructural;
    var colChanged := set c | c in newStructural && c in cachedStructural && newStructural[c] != cachedStructural[c];
    assert DiffOf(cachedStructural, newStructural) == Diff(colAdded, colRemoved, colChanged);
    UnchangedIff(cfg, s, t);
    same := !(colAdded != {} || colRemoved != {} || colChanged != {});
    columns := ColumnTally(|colAdded|, |colChanged|, |colRemoved|);
  }

  /** One round of the loop.  `raises` is the pipeline's choice; it matters only where it is called. */
  method IndexTable(store: Store, cfg: Config, t: Table, raises: bool) returns (counted: Option<Counts>)
    modifies store
    ensures counted.Some? ==>
              && store.Contents() == TableStep(cfg, old(store.Contents()), t)
              && counted.value == TableCounts(cfg, old(store.Contents()), t)
    ensures counted.None? ==>
              raises && !Unchanged(cfg, store.Contents(), t) && store.Contents() == old(store.Contents())
    ensures raises && counted.Some? ==> Unchanged(cfg, old(store.Contents()), t)
  {
    var same, columns := DiffTable(cfg, store.Contents(), t);
    if same {
      return Some(UnchangedTables(1));
    }
    if raises {
      return None;
    }
    var descriptions := DescriptionsOf(cfg, t);
    var embeddings := EmbeddingsOf(cfg, t);
    PersistTable(store, cfg, t, descriptions, embeddings);
    return Some(ChangedTable(columns, TextTally(|descriptions|, |embeddings|)));
  }

  /** Profiling or enrichment raises for no table that is worked on. */
  ghost predicate RaisesNowhere(cfg: Config, start: State, ts: seq<Table>, raises: nat -> bool) {
    forall i :: 0 <= i < |ts| && raises(i) ==> Unchanged(cfg, Steps(cfg, start, ts[..i]), ts[i])
  }

  lemma {:induction false} RaisesNowhereYet(cfg: Config, start: State, ts: seq<Table>, raises: nat -> bool, n: nat)
    requires n < |ts| && RaisesNowhere(cfg, start, ts[..n], raises)
    requires raises(n) ==> Unchanged(cfg, Steps(cfg, start, ts[..n]), ts[n])
    ensures RaisesNowhere(cfg, start, ts[..n + 1], raises)
  {
    var here := ts[..n + 1];
    forall i | 0 <= i < |here| && raises(i) ensures Unchanged(cfg, Steps(cfg, start, here[..i]), here[i]) {
      assert here[..i] == ts[..n][..i] || i == n;
      assert here[..n] == ts[..n];
      if i < n { assert here[i] == ts[..n][i]; }
    }
  }

  method Index(store: Store, cfg: Config, source: seq<Table>, raises: nat -> bool) returns (outcome: Outcome)
    modifies store
    ensures outcome.Completed? ==>
              && store.Contents() == Indexed(cfg, old(store.Contents()), source)
              && outcome.result == ResultOf(cfg, old(store.Contents()), source)
              && RaisesNowhere(cfg, Without(old(store.Contents()), Gone(old(store.Contents()), source)), source, raises)
    ensures outcome.Aborted? ==>
              var start := Without(old(store.Contents()), Gone(old(store.Contents()), source));
              && outcome.at < |source| && raises(outcome.at)
              && RaisesNowhere(cfg, start, source[..outcome.at], raises)
              && store.Contents() == Steps(cfg, start, source[..outcome.at])
              && !Unchanged(cfg, store.Contents(), source[outcome.at])
  {
    var removed := DropVanished(store, source);
    ghost var start := store.Contents();
    var counts := NO_COUNTS;
    for i := 0 to |source|
      invariant store.Contents() == Steps(cfg, start, source[..i])
      invariant counts == StepCounts(cfg, start, source[..i])
      invariant RaisesNowhere(cfg, start, source[..i], raises)
    {
      OneMoreTable(cfg, start, source, i);
      var counted := IndexTable(store, cfg, source[i], raises(i));
      if counted.None? {
        return Aborted(i);
      }
      RaisesNowhereYet(cfg, start, source, raises, i);
      counts := Plus(counts, counted.value);
    }
    assert source[..|source|] == source;
    return Completed(IndexResult(|source|, removed, counts));
  }

  // ---------------------------------------------------------------------------
  // The dry run
  // ---------------------------------------------------------------------------

  /** The first `n` tables, every one diffed against the same, untouched store. */
  function DryCounts(cfg: Config, s: State, ts: seq<Table>, n: nat, willEnrich: bool, willEmbed: bool): Counts
    requires n <= |ts|
    decreases n, cfg
  {
    if n == 0 then NO_COUNTS
    else Plus(DryCounts(cfg, s, ts, n - 1, willEnrich, willEmbed), DryTableCounts(cfg, s, ts[n - 1], willEnrich, willEmbed))
  }

  function DryResult(cfg: Config, s: State, source: seq<Table>, willEnrich: bool, willEmbed: bool): IndexResult {
    IndexResult(|source|, |Gone(s, source)|, DryCounts(cfg, s, source, |source|, willEnrich, willEmbed))
  }

  /** Of the configuration only `structural` is used.  There is no `modifies`: the store is only read. */
  method DryRunIndex(store: Store, cfg: Config, source: seq<Table>, willEnrich: bool, willEmbed: bool)
    returns (result: IndexResult)
    ensures result == DryResult(cfg, store.Contents(), source, willEnrich, willEmbed)
  {
    var removedTables := Gone(store.Contents(), source);
    var counts := NO_COUNTS;
    for i := 0 to |source|
      invariant counts == DryCounts(cfg, store.Contents(), source, i, willEnrich, willEmbed)
    {
      var t := source[i];
      var same, columns := DiffTable(cfg, store.Contents(), t);
      if same {
        counts := Plus(counts, UnchangedTables(1));
        continue;
      }
      var descriptions := if willEnrich then |t.columns| else 0;
      var embeddings := if willEnrich && willEmbed then |t.columns| else 0;
      counts := Plus(counts, ChangedTable(columns, TextTally(descriptions, embeddings)));
    }
    assert source[..|source|] == source;
    return IndexResult(|source|, |removedTables|, counts);
  }
}
