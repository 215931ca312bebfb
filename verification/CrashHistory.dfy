/** Runs as logs of store calls, cut off anywhere, over changing sources. */
module CrashHistory {
  import opened CatalogStore
  import opened Indexing
  import opened IndexerRuns
  import opened CrashRecovery
  import opened TagOutcome

  // ---------------------------------------------------------------------------
  // The log of a run
  // ---------------------------------------------------------------------------

  function DropOps(order: seq<TableId>): seq<Op> {
    if order == [] then []
    else [DropTable(order[0]), PutTags(Qualified(order[0]), map[])] + DropOps(order[1..])
  }

  function FirstOps(cfg: Config, s: State, t: Table): seq<Op> {
    if Unchanged(cfg, s, t) then [] else Writes(cfg, t)
  }

  function StepOps(cfg: Config, s: State, ts: seq<Table>): seq<Op>
    decreases |ts|, cfg
  {
    if ts == [] then []
    else FirstOps(cfg, s, ts[0]) + StepOps(cfg, TableStep(cfg, s, ts[0]), ts[1..])
  }

  /** Everything a complete run asks of the store, vanished tables being dropped in the given order. */
  function RunOps(cfg: Config, s: State, order: seq<TableId>, source: seq<Table>): seq<Op> {
    DropOps(order) + StepOps(cfg, Start(s, source), source)
  }

  /** The order a Python set happens to be iterated in. */
  predicate Enumerates(order: seq<TableId>, gone: set<TableId>) {
    && (forall i, j :: 0 <= i < j < |order| ==> order[i] != order[j])
    && (set i | 0 <= i < |order| :: order[i]) == gone
  }

  lemma {:induction false} FirstOpsMeaning(cfg: Config, s: State, t: Table)
    ensures ApplyAll(s, FirstOps(cfg, s, t)) == TableStep(cfg, s, t)
  {
    WritesPersist(cfg, s, t);
  }

  lemma {:induction false} StepOpsMeaning(cfg: Config, s: State, ts: seq<Table>)
    ensures ApplyAll(s, StepOps(cfg, s, ts)) == Steps(cfg, s, ts)
    decreases |ts|
  {
    if ts != [] {
      var next := TableStep(cfg, s, ts[0]);
      FirstOpsMeaning(cfg, s, ts[0]);
      ApplyAppend(s, FirstOps(cfg, s, ts[0]), StepOps(cfg, next, ts[1..]));
      StepOpsMeaning(cfg, next, ts[1..]);
    }
  }

  lemma {:induction false} StepsOfPrefix(cfg: Config, s: State, ts: seq<Table>, j: nat)
    requires j < |ts|
    ensures Steps(cfg, s, ts[..j + 1]) == Steps(cfg, TableStep(cfg, s, ts[0]), ts[1..][..j])
  {
    assert ts[..j + 1] == [ts[0]] + ts[1..][..j];
    StepsCons(cfg, s, ts[0], ts[1..][..j]);
  }

  /** The store inside table `k`, or behind the last one. */
  predicate InsideTable(cfg: Config, s: State, ts: seq<Table>, cut: State, k: nat, w: nat)
    decreases k, cfg
  {
    if ts == [] then cut == s
    else if k > 0 then InsideTable(cfg, TableStep(cfg, s, ts[0]), ts[1..], cut, k - 1, w)
    else !Unchanged(cfg, s, ts[0]) && w <= |Writes(cfg, ts[0])| && cut == Killed(cfg, s, ts[0], w)
  }

  /** Said of the tables before it all at once. */
  predicate Inside(cfg: Config, s: State, ts: seq<Table>, cut: State, k: nat, w: nat) {
    if k < |ts| then
      && w <= |Writes(cfg, ts[k])| && !Unchanged(cfg, Steps(cfg, s, ts[..k]), ts[k])
      && cut == Killed(cfg, Steps(cfg, s, ts[..k]), ts[k], w)
    else
      cut == Steps(cfg, s, ts)
  }

  lemma {:induction false} InsideTail(cfg: Config, s: State, ts: seq<Table>, cut: State, k: nat, w: nat)
    requires ts != [] && k > 0 && Inside(cfg, TableStep(cfg, s, ts[0]), ts[1..], cut, k - 1, w)
    ensures Inside(cfg, s, ts, cut, k, w)
  {
    if k < |ts| {
      StepsOfPrefix(cfg, s, ts, k - 1);
      assert ts[1..][k - 1] == ts[k];
    }
  }

  lemma {:induction false} InsideMeans(cfg: Config, s: State, ts: seq<Table>, cut: State, k: nat, w: nat)
    requires InsideTable(cfg, s, ts, cut, k, w)
    ensures Inside(cfg, s, ts, cut, k, w)
    decreases k
  {
    if ts != [] && k > 0 {
      InsideMeans(cfg, TableStep(cfg, s, ts[0]), ts[1..], cut, k - 1, w);
      InsideTail(cfg, s, ts, cut, k, w);
    } else if ts != [] {
      assert ts[..0] == [];
    }
  }

  /** The first `n` calls of the table phase lead from `s` to `cut`, table by table. */
  predicate CutAt(cfg: Config, s: State, ts: seq<Table>, n: nat, cut: State)
    decreases |ts|, cfg
  {
    if ts == [] then cut == s
    else if n < |FirstOps(cfg, s, ts[0])| then cut == ApplyAll(s, FirstOps(cfg, s, ts[0])[..n])
    else CutAt(cfg, TableStep(cfg, s, ts[0]), ts[1..], n - |FirstOps(cfg, s, ts[0])|, cut)
  }

  lemma {:induction false} CutInHead(head: seq<Op>, tail: seq<Op>, n: nat)
    requires n <= |head|
    ensures (head + tail)[..n] == head[..n]
  {
  }

  lemma {:induction false} CutBehindFirst(cfg: Config, s: State, ts: seq<Table>, n: nat, tail: seq<Op>)
    requires ts != [] && tail == StepOps(cfg, TableStep(cfg, s, ts[0]), ts[1..])
    requires |FirstOps(cfg, s, ts[0])| <= n <= |StepOps(cfg, s, ts)|
    ensures var m := n - |FirstOps(cfg, s, ts[0])|;
            && m <= |tail|
            && ApplyAll(s, StepOps(cfg, s, ts)[..n]) == ApplyAll(TableStep(cfg, s, ts[0]), tail[..m])
  {
    FirstOpsMeaning(cfg, s, ts[0]);
    ApplyCut(s, FirstOps(cfg, s, ts[0]), tail, n);
  }

  lemma {:induction false} CutIsAt(cfg: Config, s: State, ts: seq<Table>, n: nat, ops: seq<Op>, cut: State)
    requires ops == StepOps(cfg, s, ts) && n <= |ops| && cut == ApplyAll(s, ops[..n])
    ensures CutAt(cfg, s, ts, n, cut)
    decreases |ts|
  {
    if ts != [] {
      var next, head := TableStep(cfg, s, ts[0]), FirstOps(cfg, s, ts[0]);
      var tail := StepOps(cfg, next, ts[1..]);
      if n < |head| {
        CutInHead(head, tail, n);
      } else {
        CutBehindFirst(cfg, s, ts, n, tail);
        CutIsAt(cfg, next, ts[1..], n - |head|, tail, cut);
      }
    }
  }

  lemma {:induction false} InFirst(cfg: Config, s: State, ts: seq<Table>, n: nat)
    requires ts != [] && n < |FirstOps(cfg, s, ts[0])|
    ensures InsideTable(cfg, s, ts, ApplyAll(s, FirstOps(cfg, s, ts[0])[..n]), 0, n)
  {
  }

  /** Killed at any point, the table phase has finished some tables and is inside at most one. */
  lemma {:induction false} StepOpsCut(cfg: Config, s: State, ts: seq<Table>, n: nat, cut: State) returns (k: nat, w: nat)
    requires CutAt(cfg, s, ts, n, cut)
    ensures InsideTable(cfg, s, ts, cut, k, w)
    decreases |ts|
  {
    k, w := 0, n;
    if ts != [] {
      if n < |FirstOps(cfg, s, ts[0])| {
        InFirst(cfg, s, ts, n);
      } else {
        k, w := StepOpsCut(cfg, TableStep(cfg, s, ts[0]), ts[1..], n - |FirstOps(cfg, s, ts[0])|, cut);
        k := k + 1;
      }
    }
  }

  // ---------------------------------------------------------------------------
  // Killed while dropping vanished tables
  // ---------------------------------------------------------------------------

  function Dropping(s: State, order: seq<TableId>, n: nat): State
    requires n <= 2 * |order|
    decreases |order|, s
  {
    if n == 0 then s
    else if n == 1 then Apply(s, DropTable(order[0]))
    else Dropping(Without(s, {order[0]}), order[1..], n - 2)
  }

  lemma {:induction false} DropOpsLength(order: seq<TableId>)
    ensures |DropOps(order)| == 2 * |order|
    decreases |order|
  {
    if order != [] { DropOpsLength(order[1..]); }
  }

  lemma {:induction false} DropPair(s: State, id: TableId)
    ensures ApplyAll(s, [DropTable(id), PutTags(Qualified(id), map[])]) == Without(s, {id})
  {
    var ops := [DropTable(id), PutTags(Qualified(id), map[])];
    assert ops == [ops[0]] + [ops[1]];
    ApplyAppend(s, [ops[0]], [ops[1]]);
    ApplyOne(s, ops[0]);
    ApplyOne(Apply(s, ops[0]), ops[1]);
    WithoutNothing(s);
    WithoutOneMore(s, {}, id);
    assert {} + {id} == {id};
  }

  lemma {:induction false} DropOpsCut(s: State, order: seq<TableId>, n: nat)
    requires n <= 2 * |order|
    ensures n <= |DropOps(order)| && ApplyAll(s, DropOps(order)[..n]) == Dropping(s, order, n)
    decreases |order|
  {
    DropOpsLength(order);
    if n == 1 {
      assert DropOps(order)[..1] == [DropTable(order[0])];
      ApplyOne(s, DropTable(order[0]));
    } else if n >= 2 {
      var pair, tail := [DropTable(order[0]), PutTags(Qualified(order[0]), map[])], DropOps(order[1..]);
      assert DropOps(order)[..n] == pair + tail[..n - 2];
      ApplyAppend(s, pair, tail[..n - 2]);
      DropPair(s, order[0]);
      DropOpsCut(Without(s, {order[0]}), order[1..], n - 2);
    }
  }

  /** Removing one vanished table first does not change where the table phase starts. */
  lemma {:induction false} StartWithout(s: State, source: seq<Table>, id: TableId)
    requires id in Gone(s, source)
    ensures Start(Without(s, {id}), source) == Start(s, source)
    ensures Gone(Without(s, {id}), source) == Gone(s, source) - {id}
  {
    var after, gone := Without(s, {id}), Gone(s, source);
    assert Gone(after, source) == gone - {id};
    var names, fewer := set i | i in gone :: Qualified(i), set i | i in gone - {id} :: Qualified(i);
    assert (set i | i in {id} :: Qualified(i)) == {Qualified(id)};
    assert names == {Qualified(id)} + fewer by {
      forall q ensures q in names <==> q in {Qualified(id)} + fewer {
        if q in names && q != Qualified(id) {
          var i :| i in gone && Qualified(i) == q;
          assert i in gone - {id};
        }
      }
    }
    assert s.tables - {id} - (gone - {id}) == s.tables - gone;
    assert s.tags - {Qualified(id)} - fewer == s.tags - names;
    SparedTwice(s.dependents, {id}, gone - {id});
    assert {id} + (gone - {id}) == gone;
  }

  /** A vanished table that was dropped without its tags being wiped is no longer known to have been there. */
  lemma {:induction false} StartDropped(s: State, source: seq<Table>, id: TableId)
    requires id in Gone(s, source)
    ensures var c := Apply(s, DropTable(id));
            && AgreeOff(Start(c, source), Start(s, source), id, Qualified(id))
            && Start(c, source).tables == Start(s, source).tables
            && Start(c, source).dependents == Start(s, source).dependents
            && Gone(c, source) == Gone(s, source) - {id}
  {
    var c, gone := Apply(s, DropTable(id)), Gone(s, source);
    assert Gone(c, source) == gone - {id};
    var names, fewer := set i | i in gone :: Qualified(i), set i | i in gone - {id} :: Qualified(i);
    assert names - {Qualified(id)} == fewer - {Qualified(id)} by {
      forall q ensures q in names - {Qualified(id)} <==> q in fewer - {Qualified(id)} {
        if q in names && q != Qualified(id) {
          var i :| i in gone && Qualified(i) == q;
          assert i in gone - {id};
        }
      }
    }
    assert s.tables - {id} - (gone - {id}) == s.tables - gone;
    assert s.tags - fewer - {Qualified(id)} == s.tags - names - {Qualified(id)};
    SparedTwice(s.dependents, {id}, gone - {id});
    assert {id} + (gone - {id}) == gone;
  }

  lemma {:induction false} EnumeratesTail(order: seq<TableId>, gone: set<TableId>)
    requires order != [] && Enumerates(order, gone)
    ensures order[0] in gone && Enumerates(order[1..], gone - {order[0]})
  {
    var tail := order[1..];
    forall id ensures id in (set i | 0 <= i < |tail| :: tail[i]) <==> id in gone - {order[0]} {
      if id in gone - {order[0]} {
        var i :| 0 <= i < |order| && order[i] == id;
        assert tail[i - 1] == id;
      }
      if i :| 0 <= i < |tail| && tail[i] == id {
        assert order[i + 1] == id;
      }
    }
    assert order[0] in (set i | 0 <= i < |order| :: order[i]);
  }

  /** Where the next run's table phase starts after a kill among the drops. */
  lemma {:induction false} StartAfterDropping(s: State, source: seq<Table>, order: seq<TableId>, n: nat)
    requires Enumerates(order, Gone(s, source)) && n <= 2 * |order|
    ensures n % 2 == 0 ==> Start(Dropping(s, order, n), source) == Start(s, source)
    ensures n % 2 == 1 ==>
              && order[n / 2] in Gone(s, source) && order[n / 2] !in Start(Dropping(s, order, n), source).tables
              && Start(Dropping(s, order, n), source).dependents == Start(s, source).dependents
              && AgreeOff(Start(Dropping(s, order, n), source), Start(s, source), order[n / 2], Qualified(order[n / 2]))
    decreases |order|
  {
    if n > 0 {
      EnumeratesTail(order, Gone(s, source));
      if n == 1 {
        StartDropped(s, source, order[0]);
      } else {
        StartWithout(s, source, order[0]);
        StartAfterDropping(Without(s, {order[0]}), source, order[1..], n - 2);
        assert order[1..][(n - 2) / 2..] == order[n / 2..];
      }
    }
  }

  lemma {:induction false} AllDropped(s: State, source: seq<Table>, order: seq<TableId>)
    requires Enumerates(order, Gone(s, source))
    ensures Dropping(s, order, 2 * |order|) == Start(s, source)
    decreases |order|
  {
    if order == [] {
      WithoutNothing(s);
    } else {
      EnumeratesTail(order, Gone(s, source));
      StartWithout(s, source, order[0]);
      AllDropped(Without(s, {order[0]}), source, order[1..]);
    }
  }

  lemma {:induction false} DropsDone(s: State, source: seq<Table>, order: seq<TableId>)
    requires Enumerates(order, Gone(s, source))
    ensures |DropOps(order)| == 2 * |order| && ApplyAll(s, DropOps(order)) == Start(s, source)
  {
    DropOpsLength(order);
    DropOpsCut(s, order, 2 * |order|);
    assert DropOps(order)[..2 * |order|] == DropOps(order);
    AllDropped(s, source, order);
  }

  /** The log is the run: applied in full it gives the store of a complete run, whatever the order of drops. */
  lemma {:induction false} RunOpsMeaning(cfg: Config, s: State, order: seq<TableId>, source: seq<Table>)
    requires Enumerates(order, Gone(s, source))
    ensures ApplyAll(s, RunOps(cfg, s, order, source)) == Indexed(cfg, s, source)
  {
    var start := Start(s, source);
    DropsDone(s, source, order);
    ApplyAppend(s, DropOps(order), StepOps(cfg, start, source));
    StepOpsMeaning(cfg, start, source);
  }

  // ---------------------------------------------------------------------------
  // One run killed anywhere
  // ---------------------------------------------------------------------------

  /** The store a run leaves when it is killed after `n` store calls. */
  function KilledRun(cfg: Config, s: State, order: seq<TableId>, source: seq<Table>, n: nat): State
    requires n <= |RunOps(cfg, s, order, source)|
  {
    ApplyAll(s, RunOps(cfg, s, order, source)[..n])
  }

  /** Killed among the drops, the store is one with whole tables dropped, plus at most one table whose
      tags are still there. */
  lemma {:induction false} KilledAmongDrops(cfg: Config, s: State, order: seq<TableId>, source: seq<Table>, n: nat)
    requires n <= 2 * |order|
    ensures n <= |RunOps(cfg, s, order, source)| && KilledRun(cfg, s, order, source, n) == Dropping(s, order, n)
  {
    DropOpsLength(order);
    DropOpsCut(s, order, n);
    assert RunOps(cfg, s, order, source)[..n] == DropOps(order)[..n];
  }

  lemma {:induction false} KilledBehindDrops(cfg: Config, s: State, order: seq<TableId>, source: seq<Table>, n: nat, ops: seq<Op>)
    requires Enumerates(order, Gone(s, source)) && 2 * |order| <= n <= |RunOps(cfg, s, order, source)|
    requires ops == StepOps(cfg, Start(s, source), source)
    ensures n - 2 * |order| <= |ops|
    ensures KilledRun(cfg, s, order, source, n) == ApplyAll(Start(s, source), ops[..n - 2 * |order|])
  {
    DropsDone(s, source, order);
    ApplyCut(s, DropOps(order), ops, n);
  }

  lemma {:induction false} KilledAmongTables(cfg: Config, s: State, order: seq<TableId>, source: seq<Table>, n: nat)
    requires Enumerates(order, Gone(s, source)) && 2 * |order| <= n <= |RunOps(cfg, s, order, source)|
    ensures CutAt(cfg, Start(s, source), source, n - 2 * |order|, KilledRun(cfg, s, order, source, n))
  {
    var ops := StepOps(cfg, Start(s, source), source);
    KilledBehindDrops(cfg, s, order, source, n, ops);
    CutIsAt(cfg, Start(s, source), source, n - 2 * |order|, ops, KilledRun(cfg, s, order, source, n));
  }

  lemma {:induction false} OrphanStays(cfg: Config, a: State, s: State, source: seq<Table>, id: TableId)
    requires DistinctTables(source) && id in Gone(s, source) && AgreeOff(a, Start(s, source), id, Qualified(id))
    requires id !in a.tables && a.dependents == Start(s, source).dependents
    ensures AgreeOff(Steps(cfg, a, source), Indexed(cfg, s, source), id, Qualified(id))
    ensures Steps(cfg, a, source) == Indexed(cfg, s, source) <==>
            TagsAt(a, Qualified(id)).None? || SomeRetagged(cfg, s, source, Qualified(id))
  {
    var b, q := Start(s, source), Qualified(id);
    forall i | 0 <= i < |source| ensures source[i].id != id {
      assert source[i].id in Ids(source);
    }
    StepsAgree(cfg, a, b, source, id, q);
    DifferenceStays(cfg, a, b, source, id, q);
    StartTags(s, source, q);
    StartKeepsEntries(s, source);
    SameRetagged(cfg, b, s, source, |source|, q);
    LastIsSome(cfg, b, source, |source|, q);
    LastIsSome(cfg, s, source, |source|, q);
  }

  /** Killed between dropping a vanished table and wiping its tags: no later run remembers that table.
      The next complete run ends as an undisturbed one but for those tags, and in all iff there were
      none, or another vanished namesake is still to go, or some changed table of the source is their
      namesake. */
  lemma {:induction false} DropCrash(cfg: Config, s: State, order: seq<TableId>, source: seq<Table>, n: nat)
    requires DistinctTables(source) && Enumerates(order, Gone(s, source)) && n < 2 * |order|
    ensures var c := Dropping(s, order, n);
            && (n % 2 == 0 ==> Indexed(cfg, c, source) == Indexed(cfg, s, source))
            && (n % 2 == 1 ==>
                  var q := Qualified(order[n / 2]);
                  && AgreeOff(Indexed(cfg, c, source), Indexed(cfg, s, source), order[n / 2], q)
                  && (Indexed(cfg, c, source) == Indexed(cfg, s, source) <==>
                        q !in c.tags || NamesakeGone(c, source, q) || SomeRetagged(cfg, s, source, q)))
  {
    var c := Dropping(s, order, n);
    StartAfterDropping(s, source, order, n);
    if n % 2 == 1 {
      var id, q := order[n / 2], Qualified(order[n / 2]);
      OrphanStays(cfg, Start(c, source), s, source, id);
      StartTags(c, source, q);
    }
  }

  /** A complete run from `c` ends as one from `s` except, at most, for one table: its row, derived data,
      dependents and tags. */
  ghost predicate Recovers(cfg: Config, s: State, source: seq<Table>, c: State) {
    exists id :: AgreeOff(Indexed(cfg, c, source), Indexed(cfg, s, source), id, Qualified(id))
  }

  lemma {:induction false} RecoversFromDrop(cfg: Config, s: State, order: seq<TableId>, source: seq<Table>, n: nat)
    requires DistinctTables(source) && Enumerates(order, Gone(s, source)) && n < 2 * |order|
    ensures Recovers(cfg, s, source, Dropping(s, order, n))
  {
    DropCrash(cfg, s, order, source, n);
    var id := order[n / 2];
    assert AgreeOff(Indexed(cfg, Dropping(s, order, n), source), Indexed(cfg, s, source), id, Qualified(id));
  }

  lemma {:induction false} RecoversFromTable(cfg: Config, s: State, source: seq<Table>, c: State, k: nat, w: nat)
    requires DistinctTables(source) && k < |source| && Inside(cfg, Start(s, source), source, c, k, w)
    ensures Recovers(cfg, s, source, c)
  {
    TableCrash(cfg, s, source, k, w);
    var id := source[k].id;
    assert AgreeOff(Indexed(cfg, c, source), Indexed(cfg, s, source), id, Qualified(id));
  }

  lemma {:induction false} RecoversFromEnd(cfg: Config, s: State, source: seq<Table>)
    requires DistinctTables(source)
    ensures Recovers(cfg, s, source, Indexed(cfg, s, source))
  {
    var once, id := Indexed(cfg, s, source), TableId("", "");
    Idempotence(cfg, s, source);
    assert AgreeOff(Indexed(cfg, once, source), once, id, Qualified(id));
  }

  lemma {:induction false} RecoversInside(cfg: Config, s: State, source: seq<Table>, c: State, k: nat, w: nat)
    requires DistinctTables(source) && InsideTable(cfg, Start(s, source), source, c, k, w)
    ensures Recovers(cfg, s, source, c)
  {
    InsideMeans(cfg, Start(s, source), source, c, k, w);
    if k < |source| {
      RecoversFromTable(cfg, s, source, c, k, w);
    } else {
      RecoversFromEnd(cfg, s, source);
    }
  }

  /** Wherever a run is killed, the next complete run repairs all tables but at most one. */
  lemma {:induction false} AnyCrash(cfg: Config, s: State, order: seq<TableId>, source: seq<Table>, n: nat)
    requires DistinctTables(source) && Enumerates(order, Gone(s, source)) && n <= |RunOps(cfg, s, order, source)|
    ensures Recovers(cfg, s, source, KilledRun(cfg, s, order, source, n))
  {
    if n < 2 * |order| {
      KilledAmongDrops(cfg, s, order, source, n);
      RecoversFromDrop(cfg, s, order, source, n);
    } else {
      KilledAmongTables(cfg, s, order, source, n);
      var cut := KilledRun(cfg, s, order, source, n);
      var k, w := StepOpsCut(cfg, Start(s, source), source, n - 2 * |order|, cut);
      RecoversInside(cfg, s, source, cut, k, w);
    }
  }
}
