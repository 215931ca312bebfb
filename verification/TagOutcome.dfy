/** Which tags stand under a dotted name after a run. */
module TagOutcome {
  import opened CatalogStore
  import opened Indexing
  import opened IndexerRuns
  import opened Wrappers

  /** The rows of `column_pii_tags` under a dotted name; `None` when there are none. */
  function TagsAt(s: State, q: string): Option<map<string, Tag>> {
    if q in s.tags then Some(s.tags[q]) else None
  }

  predicate SameTags(a: State, b: State, q: string) {
    TagsAt(a, q) == TagsAt(b, q)
  }

  /** What a write of these tags leaves under its name. */
  function Written(tags: map<string, Tag>): Option<map<string, Tag>> {
    if tags == map[] then None else Some(tags)
  }

  /** A run over the table writes tags under this dotted name. */
  predicate Retags(cfg: Config, s: State, t: Table, q: string) {
    Qualified(t.id) == q && !Unchanged(cfg, s, t)
  }

  /** The last of the first `n` tables that does. */
  function LastRetagged(cfg: Config, s: State, ts: seq<Table>, n: nat, q: string): Option<Table>
    requires n <= |ts|
    decreases n, cfg
  {
    if n == 0 then None
    else if Retags(cfg, s, ts[n - 1], q) then Some(ts[n - 1])
    else LastRetagged(cfg, s, ts, n - 1, q)
  }

  predicate SomeRetagged(cfg: Config, s: State, ts: seq<Table>, q: string) {
    exists i :: 0 <= i < |ts| && Retags(cfg, s, ts[i], q)
  }

  lemma {:induction false} LastIsSome(cfg: Config, s: State, ts: seq<Table>, n: nat, q: string)
    requires n <= |ts|
    ensures LastRetagged(cfg, s, ts, n, q).Some? <==> exists i :: 0 <= i < n && Retags(cfg, s, ts[i], q)
  {
    if n > 0 { LastIsSome(cfg, s, ts, n - 1, q); }
  }

  lemma {:induction false} StepTags(cfg: Config, s: State, t: Table, q: string)
    ensures TagsAt(TableStep(cfg, s, t), q) == if Retags(cfg, s, t, q) then Written(TagsOf(cfg, t)) else TagsAt(s, q)
  {
  }

  /** A later table is compared with the entry the run began with. */
  lemma {:induction false} RetagsLater(cfg: Config, s: State, ts: seq<Table>, n: nat, q: string)
    requires DistinctTables(ts) && n < |ts|
    ensures Retags(cfg, Steps(cfg, s, ts[..n]), ts[n], q) == Retags(cfg, s, ts[n], q)
  {
    StepsFrame(cfg, s, ts[..n], ts[n].id);
    SameEntrySameDiff(cfg, Steps(cfg, s, ts[..n]), s, ts[n]);
  }

  /** The tags under a name once the first `n` tables have been stepped through. */
  function TagsAfter(cfg: Config, s: State, ts: seq<Table>, n: nat, q: string): Option<map<string, Tag>>
    requires n <= |ts|
  {
    match LastRetagged(cfg, s, ts, n, q)
    case Some(t) => Written(TagsOf(cfg, t))
    case None => TagsAt(s, q)
  }

  predicate TagsAre(cfg: Config, s: State, ts: seq<Table>, n: nat, q: string)
    requires n <= |ts|
  {
    TagsAt(Steps(cfg, s, ts[..n]), q) == TagsAfter(cfg, s, ts, n, q)
  }

  lemma {:induction false} TagsNext(cfg: Config, s: State, ts: seq<Table>, n: nat, q: string)
    requires DistinctTables(ts) && n < |ts| && TagsAre(cfg, s, ts, n, q)
    ensures TagsAre(cfg, s, ts, n + 1, q)
  {
    OneMoreTable(cfg, s, ts, n);
    StepTags(cfg, Steps(cfg, s, ts[..n]), ts[n], q);
    RetagsLater(cfg, s, ts, n, q);
  }

  lemma {:induction false} StepsTags(cfg: Config, s: State, ts: seq<Table>, n: nat, q: string)
    requires DistinctTables(ts) && n <= |ts|
    ensures TagsAre(cfg, s, ts, n, q)
  {
    if n > 0 {
      StepsTags(cfg, s, ts, n - 1, q);
      TagsNext(cfg, s, ts, n - 1, q);
    }
  }

  lemma {:induction false} AllStepsTags(cfg: Config, s: State, ts: seq<Table>, q: string)
    requires DistinctTables(ts)
    ensures TagsAt(Steps(cfg, s, ts), q) == TagsAfter(cfg, s, ts, |ts|, q)
  {
    StepsTags(cfg, s, ts, |ts|, q);
    assert ts[..|ts|] == ts;
  }

  /** Stores that agree on the rows of the tables agree on which of them are retagged. */
  lemma {:induction false} SameRetagged(cfg: Config, a: State, b: State, ts: seq<Table>, n: nat, q: string)
    requires n <= |ts| && forall i :: 0 <= i < |ts| ==> SameEntry(a, b, ts[i].id)
    ensures LastRetagged(cfg, a, ts, n, q) == LastRetagged(cfg, b, ts, n, q)
  {
    if n > 0 {
      SameRetagged(cfg, a, b, ts, n - 1, q);
      SameEntrySameDiff(cfg, a, b, ts[n - 1]);
    }
  }

  lemma {:induction false} StartKeepsEntries(s: State, source: seq<Table>)
    ensures forall i :: 0 <= i < |source| ==> SameEntry(Start(s, source), s, source[i].id)
  {
    forall i | 0 <= i < |source| ensures SameEntry(Start(s, source), s, source[i].id) {
      assert source[i].id in Ids(source);
    }
  }

  /** A vanished table of this dotted name is dropped by the run. */
  predicate NamesakeGone(s: State, source: seq<Table>, q: string) {
    exists id :: id in Gone(s, source) && Qualified(id) == q
  }

  lemma {:induction false} StartTags(s: State, source: seq<Table>, q: string)
    ensures TagsAt(Start(s, source), q) == if NamesakeGone(s, source, q) then None else TagsAt(s, q)
  {
    var names := set id | id in Gone(s, source) :: Qualified(id);
    assert q in names <==> NamesakeGone(s, source, q);
  }

  /** What stands under any dotted name after a complete run: what the last changed table of that name
      wrote; without one nothing, if a vanished table of that name was dropped; otherwise what stood there. */
  lemma {:induction false} RunTags(cfg: Config, s: State, source: seq<Table>, q: string)
    requires DistinctTables(source)
    ensures TagsAt(Indexed(cfg, s, source), q) ==
            match LastRetagged(cfg, s, source, |source|, q)
            case Some(t) => if cfg.classify.None? || cfg.classify.value(t) == map[] then None else Some(cfg.classify.value(t))
            case None => if NamesakeGone(s, source, q) then None else TagsAt(s, q)
  {
    AllStepsTags(cfg, Start(s, source), source, q);
    StartKeepsEntries(s, source);
    SameRetagged(cfg, Start(s, source), s, source, |source|, q);
    StartTags(s, source, q);
  }
}
