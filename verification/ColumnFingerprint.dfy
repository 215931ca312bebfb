/** The structural fingerprint of a column, and what a cache hit therefore certifies. */
module ColumnFingerprint {
  import opened Bytes
  import opened CatalogStore
  import opened Encodings
  import opened Indexing
  import opened JsonForm
  import opened CacheHistory
  import opened Text
  import opened Wrappers
  import Json

  /** `"<schema>.<table>.<column>"` for every target the column is paired with, in any foreign key. */
  function FkTargets(t: Table, column: string): set<string> {
    set k, i | 0 <= k < |t.foreignKeys| && 0 <= i < |t.foreignKeys[k].sourceColumns|
               && i < |t.foreignKeys[k].targetColumns| && t.foreignKeys[k].sourceColumns[i] == column
      :: t.foreignKeys[k].targetSchema + "." + t.foreignKeys[k].targetTable + "." + t.foreignKeys[k].targetColumns[i]
  }

  predicate PairAt(t: Table, k: nat, i: nat, column: string, target: string) {
    && k < |t.foreignKeys| && i < |t.foreignKeys[k].sourceColumns| && i < |t.foreignKeys[k].targetColumns|
    && t.foreignKeys[k].sourceColumns[i] == column
    && target == t.foreignKeys[k].targetSchema + "." + t.foreignKeys[k].targetTable + "." + t.foreignKeys[k].targetColumns[i]
  }

  /** Some foreign key of the table pairs the column with the target of this dotted name. */
  ghost predicate Pairs(t: Table, column: string, target: string) {
    exists k: nat, i: nat :: PairAt(t, k, i, column, target)
  }

  lemma {:induction false} TargetsArePaired(t: Table, column: string, target: string)
    ensures target in FkTargets(t, column) <==> Pairs(t, column, target)
  {
    if target in FkTargets(t, column) {
      var k, i :| 0 <= k < |t.foreignKeys| && 0 <= i < |t.foreignKeys[k].sourceColumns|
        && i < |t.foreignKeys[k].targetColumns| && t.foreignKeys[k].sourceColumns[i] == column
        && t.foreignKeys[k].targetSchema + "." + t.foreignKeys[k].targetTable + "." + t.foreignKeys[k].targetColumns[i] == target;
      assert PairAt(t, k, i, column, target);
    }
    if Pairs(t, column, target) {
      var k: nat, i: nat :| PairAt(t, k, i, column, target);
      assert target in FkTargets(t, column);
    }
  }

  function Payload(c: Column, targets: set<string>): Json.Object {
    map["name" := Json.String(c.name),
        "data_type" := Json.String(c.dataType),
        "nullable" := Json.Bool(c.nullable),
        "default" := (match c.defaultExpr case None => Json.Null case Some(d) => Json.String(d)),
        "position" := Json.Number(c.position),
        "is_pk" := Json.Bool(c.isPrimaryKey),
        "fk_targets" := Json.Strings(Sorted(targets))]
  }

  function Preimage(c: Column, targets: set<string>): Bytes {
    Json.Dumps(Payload(c, targets), false)
  }

  function StructuralFingerprint(H: HashFunction, c: Column, targets: set<string>): string {
    Hex(H(Preimage(c, targets)))
  }

  /** What a reader of the hashed bytes finds: seven members under their names. */
  lemma {:induction false} PreimageReads(c: Column, targets: set<string>)
    ensures var m := Json.Loads(Preimage(c, targets));
            && m.Some?
            && m.value.Keys == {"name", "data_type", "nullable", "default", "position", "is_pk", "fk_targets"}
            && m.value["name"] == Json.String(c.name)
            && m.value["data_type"] == Json.String(c.dataType)
            && m.value["nullable"] == Json.Bool(c.nullable)
            && m.value["default"] == (if c.defaultExpr.None? then Json.Null else Json.String(c.defaultExpr.value))
            && m.value["position"] == Json.Number(c.position)
            && m.value["is_pk"] == Json.Bool(c.isPrimaryKey)
            && m.value["fk_targets"].Strings?
            && StrictlySorted(m.value["fk_targets"].items) && Elements(m.value["fk_targets"].items) == targets
  {
    Json.RoundTrip(Payload(c, targets), false);
    SortedIsSorted(targets);
  }

  /** And the bytes are the one printed form of these members. */
  lemma {:induction false} PreimageForm(c: Column, targets: set<string>)
    ensures IsDump(Preimage(c, targets), false)
  {
    DumpReads(Preimage(c, targets), Payload(c, targets), false);
  }

  lemma {:induction false} PayloadBinds(c: Column, x: set<string>, d: Column, y: set<string>)
    requires Payload(c, x) == Payload(d, y)
    ensures c == d && Sorted(x) == Sorted(y)
  {
    var m, n := Payload(c, x), Payload(d, y);
    assert m["name"] == n["name"] && m["data_type"] == n["data_type"] && m["nullable"] == n["nullable"];
    assert m["default"] == n["default"] && m["position"] == n["position"];
    assert m["is_pk"] == n["is_pk"] && m["fk_targets"] == n["fk_targets"];
  }

  /** Equal preimages are equal columns with equal sets of targets. */
  lemma {:induction false} PreimageBinds(c: Column, x: set<string>, d: Column, y: set<string>)
    requires Preimage(c, x) == Preimage(d, y)
    ensures c == d && x == y
  {
    Json.DumpsInjective(Payload(c, x), Payload(d, y), false);
    PayloadBinds(c, x, d, y);
    SortedIsSorted(x);
    SortedIsSorted(y);
  }

  // ---------------------------------------------------------------------------
  // Whole tables
  // ---------------------------------------------------------------------------

  function Named(columns: seq<Column>, name: string): (c: Option<Column>)
    ensures c.Some? <==> exists i :: 0 <= i < |columns| && columns[i].name == name
    ensures c.Some? ==> c.value in columns && c.value.name == name
  {
    if columns == [] then None
    else if columns[0].name == name then Some(columns[0])
    else Named(columns[1..], name)
  }

  function TableHash(H: HashFunction, t: Table, name: string): string {
    match Named(t.columns, name)
    case None => ""
    case Some(c) => StructuralFingerprint(H, c, FkTargets(t, name))
  }

  /** The configuration of the real indexer, as far as the comparison goes. */
  ghost predicate HashesColumns(H: HashFunction, cfg: Config) {
    forall t, name :: cfg.structural(t, name) == TableHash(H, t, name)
  }

  predicate SameColumn(t: Table, u: Table, name: string) {
    Named(t.columns, name) == Named(u.columns, name) && FkTargets(t, name) == FkTargets(u, name)
  }

  ghost predicate SamePairs(t: Table, u: Table, c: string) {
    forall target :: Pairs(t, c, target) <==> Pairs(u, c, target)
  }

  /** The same columns, and the foreign keys pair each with the same targets. */
  ghost predicate SameShape(t: Table, u: Table) {
    && ColumnNames(t) == ColumnNames(u)
    && forall c :: c in ColumnNames(t) ==> Named(t.columns, c) == Named(u.columns, c) && SamePairs(t, u, c)
  }

  lemma {:induction false} SamePairsIff(t: Table, u: Table, c: string)
    ensures FkTargets(t, c) == FkTargets(u, c) <==> SamePairs(t, u, c)
  {
    forall target
      ensures target in FkTargets(t, c) <==> Pairs(t, c, target)
      ensures target in FkTargets(u, c) <==> Pairs(u, c, target)
    {
      TargetsArePaired(t, c, target);
      TargetsArePaired(u, c, target);
    }
    if SamePairs(t, u, c) {
      forall target ensures target in FkTargets(t, c) <==> target in FkTargets(u, c) {
        assert Pairs(t, c, target) <==> Pairs(u, c, target);
      }
    }
  }

  lemma {:induction false} SameShapeIff(t: Table, u: Table)
    ensures SameShape(t, u) <==> ColumnNames(t) == ColumnNames(u) && forall c :: c in ColumnNames(t) ==> SameColumn(t, u, c)
  {
    forall c ensures FkTargets(t, c) == FkTargets(u, c) <==> SamePairs(t, u, c) {
      SamePairsIff(t, u, c);
    }
  }

  /** The two preimages, where a column differs. */
  function ColumnEvidence(t: Table, u: Table, name: string): Evidence {
    match (Named(t.columns, name), Named(u.columns, name))
    case (Some(c), Some(d)) => Compare(Preimage(c, FkTargets(t, name)), Preimage(d, FkTargets(u, name)))
    case _ => NoEvidence
  }

  function FirstOf(found: seq<Evidence>): Evidence {
    if found == [] then NoEvidence else if found[0] != NoEvidence then found[0] else FirstOf(found[1..])
  }

  lemma {:induction false} FirstOfBreaks(H: HashFunction, found: seq<Evidence>)
    requires forall i :: 0 <= i < |found| ==> found[i] == NoEvidence || Breaks(H, found[i])
    ensures if FirstOf(found) == NoEvidence then forall i :: 0 <= i < |found| ==> found[i] == NoEvidence
            else Breaks(H, FirstOf(found))
    decreases |found|
  {
    if found != [] && found[0] == NoEvidence {
      FirstOfBreaks(H, found[1..]);
      assert forall i :: 1 <= i < |found| ==> found[i] == found[1..][i - 1];
    }
  }

  function Evidences(t: Table, u: Table): (found: seq<Evidence>)
    ensures |found| == |t.columns|
  {
    seq(|t.columns|, i requires 0 <= i < |t.columns| => ColumnEvidence(t, u, t.columns[i].name))
  }

  /** The first column in which two tables differ, as a pair of preimages. */
  function ShapeEvidence(t: Table, u: Table): Evidence {
    FirstOf(Evidences(t, u))
  }

  lemma {:induction false} NamedIff(t: Table, name: string)
    ensures Named(t.columns, name).Some? <==> name in ColumnNames(t)
  {
  }

  lemma {:induction false} ColumnBinds(H: HashFunction, t: Table, u: Table, name: string)
    requires name in ColumnNames(t) && name in ColumnNames(u) && TableHash(H, t, name) == TableHash(H, u, name)
    ensures var e := ColumnEvidence(t, u, name); if e == NoEvidence then SameColumn(t, u, name) else Breaks(H, e)
  {
    NamedIff(t, name);
    NamedIff(u, name);
    var c, d := Named(t.columns, name).value, Named(u.columns, name).value;
    var x, y := FkTargets(t, name), FkTargets(u, name);
    HexRoundTrip(H(Preimage(c, x)));
    HexRoundTrip(H(Preimage(d, y)));
    if Preimage(c, x) == Preimage(d, y) {
      PreimageBinds(c, x, d, y);
    }
  }

  lemma {:induction false} ColumnsBind(H: HashFunction, t: Table, u: Table)
    requires ColumnNames(t) == ColumnNames(u)
    requires forall c :: c in ColumnNames(t) ==> TableHash(H, t, c) == TableHash(H, u, c)
    ensures SameShape(t, u) || Breaks(H, ShapeEvidence(t, u))
  {
    var found := Evidences(t, u);
    forall i | 0 <= i < |t.columns|
      ensures if found[i] == NoEvidence then SameColumn(t, u, t.columns[i].name) else Breaks(H, found[i])
    {
      assert t.columns[i].name in ColumnNames(t);
      ColumnBinds(H, t, u, t.columns[i].name);
    }
    FirstOfBreaks(H, found);
    SameShapeIff(t, u);
  }

  /** The comparison asks for the same columns with the same hashes. */
  lemma {:induction false} ComparisonIsColumnwise(cfg: Config, t: Table, u: Table)
    ensures NewStructural(cfg, t) == NewStructural(cfg, u) <==>
            && ColumnNames(t) == ColumnNames(u)
            && forall c :: c in ColumnNames(t) ==> cfg.structural(t, c) == cfg.structural(u, c)
  {
    var x, y := NewStructural(cfg, t), NewStructural(cfg, u);
    assert x.Keys == ColumnNames(t) && y.Keys == ColumnNames(u);
    if x == y {
      forall c | c in ColumnNames(t) ensures cfg.structural(t, c) == cfg.structural(u, c) {
        assert x[c] == y[c];
      }
    }
  }

  lemma {:induction false} SameColumnSameHash(H: HashFunction, t: Table, u: Table, name: string)
    requires SameColumn(t, u, name)
    ensures TableHash(H, t, name) == TableHash(H, u, name)
  {
  }

  /** The comparison takes two tables for the same exactly when they have the same shape, up to a
      collision.  Names of foreign keys, and which pairs form one key, are no part of it. */
  lemma {:induction false} HashesBindShape(H: HashFunction, cfg: Config, t: Table, u: Table)
    requires HashesColumns(H, cfg)
    ensures SameShape(t, u) ==> NewStructural(cfg, t) == NewStructural(cfg, u)
    ensures NewStructural(cfg, t) == NewStructural(cfg, u) ==> SameShape(t, u) || Breaks(H, ShapeEvidence(t, u))
  {
    ComparisonIsColumnwise(cfg, t, u);
    SameShapeIff(t, u);
    forall c ensures cfg.structural(t, c) == TableHash(H, t, c) && cfg.structural(u, c) == TableHash(H, u, c) {
    }
    if NewStructural(cfg, t) == NewStructural(cfg, u) {
      ColumnsBind(H, t, u);
    }
    if SameShape(t, u) {
      forall c | c in ColumnNames(t) ensures cfg.structural(t, c) == cfg.structural(u, c) {
        SameColumnSameHash(H, t, u, c);
      }
    }
  }

  /** A foreign key moved to another target changes the comparison: if one version pairs a column with a
      target the other does not, the tables count as different, or a collision is computed. */
  lemma {:induction false} MovedTarget(H: HashFunction, cfg: Config, t: Table, u: Table, column: string, target: string)
    requires HashesColumns(H, cfg) && column in ColumnNames(t)
    requires Pairs(t, column, target) && !Pairs(u, column, target)
    ensures NewStructural(cfg, t) != NewStructural(cfg, u) || Breaks(H, ShapeEvidence(t, u))
  {
    HashesBindShape(H, cfg, t, u);
  }

  /** After any history and one complete run, every source table with a column is stored in the source's
      shape, unless two colliding byte strings can be read off the stored and the source's version. */
  lemma {:induction false} StoredShape(H: HashFunction, cfg: Config, runs: seq<Run>, s: State, source: seq<Table>, i: nat)
    requires HashesColumns(H, cfg) && DistinctTables(source) && i < |source| && source[i].columns != []
    requires Reaches(cfg.structural, EMPTY_STORE, runs, s)
    ensures source[i].id in Indexed(cfg, s, source).tables
    ensures var stored := Indexed(cfg, s, source).tables[source[i].id].table;
            SameShape(stored, source[i]) || Breaks(H, ShapeEvidence(stored, source[i]))
  {
    CacheAgreement(cfg, runs, s, source);
    HashesBindShape(H, cfg, Indexed(cfg, s, source).tables[source[i].id].table, source[i]);
  }
}
