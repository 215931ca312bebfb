/** PII tags hang on the dotted name, and two tables can share it. */
module Namesakes {
  import opened CatalogStore
  import opened Indexing
  import opened IndexerRuns
  import opened TagOutcome
  import opened Wrappers

  /** Different tables, one dotted name. */
  lemma {:induction false} DottedNamesCollide()
    ensures TableId("a", "b.c") != TableId("a.b", "c") && Qualified(TableId("a", "b.c")) == Qualified(TableId("a.b", "c"))
  {
    assert Qualified(TableId("a", "b.c")) == "a.b.c";
    assert Qualified(TableId("a.b", "c")) == "a.b.c";
  }

  /** Dotted names tell tables apart where schema names hold no dot. */
  lemma {:induction false} UndottedSchemas(a: TableId, b: TableId)
    requires '.' !in a.schema && '.' !in b.schema && Qualified(a) == Qualified(b)
    ensures a == b
  {
    var q := Qualified(a);
    assert q[|a.schema|] == '.' && q[|b.schema|] == '.';
    assert forall i :: 0 <= i < |a.schema| ==> q[i] == a.schema[i];
    assert forall i :: 0 <= i < |b.schema| ==> q[i] == b.schema[i];
    assert |a.schema| == |b.schema|;
    assert a.schema == q[..|a.schema|] == b.schema;
    assert a.name == q[|a.schema| + 1..] == b.name;
  }

  predicate Undotted(s: State, source: seq<Table>) {
    && (forall id :: id in s.tables ==> '.' !in id.schema)
    && (forall i :: 0 <= i < |source| ==> '.' !in source[i].id.schema)
  }

  lemma {:induction false} OnlyOneRetagged(cfg: Config, s: State, source: seq<Table>, i: nat, n: nat)
    requires DistinctTables(source) && Undotted(s, source) && i < |source| && n <= |source|
    ensures LastRetagged(cfg, s, source, n, Qualified(source[i].id)) ==
            if i < n && !Unchanged(cfg, s, source[i]) then Some(source[i]) else None
  {
    if n > 0 {
      OnlyOneRetagged(cfg, s, source, i, n - 1);
      if Qualified(source[n - 1].id) == Qualified(source[i].id) {
        UndottedSchemas(source[n - 1].id, source[i].id);
      }
    }
  }

  /** Without dots in schema names a run leaves every source table its own tags: the old ones if it is
      unchanged, those just written otherwise. */
  lemma {:induction false} UndottedRun(cfg: Config, s: State, source: seq<Table>, i: nat)
    requires DistinctTables(source) && Undotted(s, source) && i < |source|
    ensures var q := Qualified(source[i].id);
            TagsAt(Indexed(cfg, s, source), q) ==
            if Unchanged(cfg, s, source[i]) then TagsAt(s, q) else Written(TagsOf(cfg, source[i]))
  {
    var q := Qualified(source[i].id);
    RunTags(cfg, s, source, q);
    OnlyOneRetagged(cfg, s, source, i, |source|);
    assert source[i].id in Ids(source);
    forall id | id in Gone(s, source) ensures Qualified(id) != q {
      if Qualified(id) == q { UndottedSchemas(id, source[i].id); }
    }
  }

  /** With dots, tags under a name survive a run iff the last changed table of that name writes the same
      ones, or there is none and no vanished table of that name is dropped while there are tags to lose. */
  lemma {:induction false} TagsSurvive(cfg: Config, s: State, source: seq<Table>, q: string)
    requires DistinctTables(source)
    ensures SameTags(Indexed(cfg, s, source), s, q) <==>
            match LastRetagged(cfg, s, source, |source|, q)
            case Some(t) => Written(TagsOf(cfg, t)) == TagsAt(s, q)
            case None => q in s.tags ==> !NamesakeGone(s, source, q)
  {
    RunTags(cfg, s, source, q);
  }

  predicate NamesakesUnchanged(cfg: Config, s: State, ts: seq<Table>, q: string) {
    forall i :: 0 <= i < |ts| && Qualified(ts[i].id) == q ==> Unchanged(cfg, s, ts[i])
  }

  /** Where every table of a name is unchanged, its tags survive iff there are none or no vanished
      namesake is dropped; and what is lost stays lost on the same source. */
  lemma {:induction false} NamesakeLosesTags(cfg: Config, s: State, source: seq<Table>, q: string)
    requires DistinctTables(source) && NamesakesUnchanged(cfg, s, source, q)
    ensures SameTags(Indexed(cfg, s, source), s, q) <==>
            (q in s.tags ==> forall id :: id in Gone(s, source) ==> Qualified(id) != q)
    ensures Indexed(cfg, Indexed(cfg, s, source), source) == Indexed(cfg, s, source)
  {
    TagsSurvive(cfg, s, source, q);
    LastIsSome(cfg, s, source, |source|, q);
    Idempotence(cfg, s, source);
  }

  // ---------------------------------------------------------------------------
  // One store in which it happens
  // ---------------------------------------------------------------------------

  function ColumnTable(id: TableId): Table {
    Table(id, [Column("email", "text", false, 1, None, false)], [])
  }

  /** `a.b`.`c` and `a`.`b.c`, both indexed, and the tags they share. */
  function SharedStore(cfg: Config, tag: Tag): State {
    var kept, dropped := ColumnTable(TableId("a.b", "c")), ColumnTable(TableId("a", "b.c"));
    State(map[kept.id := EntryOf(cfg, kept), dropped.id := EntryOf(cfg, dropped)],
          map["a.b.c" := map["email" := tag]], map[])
  }

  lemma {:induction false} SharedUnchanged(cfg: Config, tag: Tag)
    ensures Unchanged(cfg, SharedStore(cfg, tag), ColumnTable(TableId("a.b", "c")))
  {
    var kept := ColumnTable(TableId("a.b", "c"));
    assert CachedFingerprints(SharedStore(cfg, tag), kept.id) == FingerprintsOf(cfg, kept);
    assert StructuralOf(FingerprintsOf(cfg, kept)) == NewStructural(cfg, kept);
  }

  /** The source has lost `a`.`b.c`.  The run finds `a.b`.`c` unchanged, and its tags are gone. */
  lemma {:induction false} TagsLost(cfg: Config, tag: Tag)
    ensures var s, kept := SharedStore(cfg, tag), ColumnTable(TableId("a.b", "c"));
            && Unchanged(cfg, s, kept)
            && TagsAt(s, Qualified(kept.id)) == Some(map["email" := tag])
            && TagsAt(Indexed(cfg, s, [kept]), Qualified(kept.id)) == None
  {
    var s, kept, dropped := SharedStore(cfg, tag), ColumnTable(TableId("a.b", "c")), ColumnTable(TableId("a", "b.c"));
    DottedNamesCollide();
    assert Qualified(kept.id) == "a.b.c";
    SharedUnchanged(cfg, tag);
    assert dropped.id != kept.id && forall i :: 0 <= i < |[kept]| ==> [kept][i].id == kept.id;
    assert dropped.id in Gone(s, [kept]) && Qualified(dropped.id) == "a.b.c";
    NamesakeLosesTags(cfg, s, [kept], "a.b.c");
    RunTags(cfg, s, [kept], "a.b.c");
    LastIsSome(cfg, s, [kept], 1, "a.b.c");
  }
}
