/** The cache the indexer keeps: tables with their derived rows, and heuristic PII tags. */
module CatalogStore {
  import opened Wrappers

  datatype TableId = TableId(schema: string, name: string)

  datatype Column = Column(
    name: string,
    dataType: string,
    nullable: bool,
    position: nat,
    defaultExpr: Option<string>,
    isPrimaryKey: bool)

  datatype ForeignKey = ForeignKey(
    name: string,
    sourceColumns: seq<string>,
    targetSchema: string,
    targetTable: string,
    targetColumns: seq<string>)

  datatype Table = Table(id: TableId, columns: seq<Column>, foreignKeys: seq<ForeignKey>)

  function ColumnNames(t: Table): set<string> {
    set i | 0 <= i < |t.columns| :: t.columns[i].name
  }


  datatype Fingerprints = Fingerprints(structural: string, semantic: string)
  datatype Description = Description(text: string, model: string, promptVersion: string)
  datatype Embedding = Embedding(model: string, vector: seq<real>)
  datatype Tag = Tag(sensitivity: string, categories: set<string>, confidence: Option<string>)

  /** One row of `tables` with everything that cascades from it. */
  datatype Entry = Entry(
    table: Table,
    rowCount: Option<int>,
    fingerprints: map<string, Fingerprints>,
    descriptions: map<string, Description>,
    embeddings: map<string, Embedding>)

  /** `column_pii_tags` hangs on the dotted name, not on the table row.  A name without tags is absent.
      Example queries, entities and what refers to entities (joins, metrics) are dependents: each hangs,
      directly or through others, on a set of table rows. */
  datatype State = State(
    tables: map<TableId, Entry>,
    tags: map<string, map<string, Tag>>,
    dependents: map<string, set<TableId>>)

  const EMPTY_STORE: State := State(map[], map[], map[])

  /** What `ON DELETE CASCADE` leaves when table rows are deleted. */
  function Spared(dependents: map<string, set<TableId>>, deleted: set<TableId>): map<string, set<TableId>> {
    map d | d in dependents && dependents[d] !! deleted :: dependents[d]
  }

  lemma {:induction false} SparedTwice(dependents: map<string, set<TableId>>, a: set<TableId>, b: set<TableId>)
    ensures Spared(Spared(dependents, a), b) == Spared(dependents, a + b)
  {
  }

  lemma {:induction false} SparedNone(dependents: map<string, set<TableId>>)
    ensures Spared(dependents, {}) == dependents
  {
  }

  function Qualified(id: TableId): string {
    id.schema + "." + id.name
  }

  /** One store call: one SQLite transaction. */
  datatype Op =
    | PutTable(table: Table, rowCount: Option<int>)
    | DropTable(id: TableId)
    | PutFingerprints(id: TableId, fingerprints: map<string, Fingerprints>)
    | PutDescriptions(id: TableId, descriptions: map<string, Description>)
    | PutEmbeddings(id: TableId, embeddings: map<string, Embedding>)
    | PutTags(qualified: string, tags: map<string, Tag>)

  /** Child rows need their parent row; without it the foreign key refuses them. */
  function Apply(s: State, op: Op): State {
    match op
    case PutTable(t, rowCount) =>
      s.(tables := s.tables[t.id := Entry(t, rowCount, map[], map[], map[])], dependents := Spared(s.dependents, {t.id}))
    case DropTable(id) => s.(tables := s.tables - {id}, dependents := Spared(s.dependents, {id}))
    case PutFingerprints(id, f) =>
      if id !in s.tables then s else s.(tables := s.tables[id := s.tables[id].(fingerprints := f)])
    case PutDescriptions(id, d) =>
      if id !in s.tables then s else s.(tables := s.tables[id := s.tables[id].(descriptions := d)])
    case PutEmbeddings(id, e) =>
      if id !in s.tables then s else s.(tables := s.tables[id := s.tables[id].(embeddings := e)])
    case PutTags(q, tags) =>
      if tags == map[] then s.(tags := s.tags - {q}) else s.(tags := s.tags[q := tags])
  }

  function ApplyAll(s: State, ops: seq<Op>): State
    decreases |ops|, s
  {
    if ops == [] then s else ApplyAll(Apply(s, ops[0]), ops[1..])
  }

  lemma {:induction false} ApplyAppend(s: State, a: seq<Op>, b: seq<Op>)
    ensures ApplyAll(s, a + b) == ApplyAll(ApplyAll(s, a), b)
    decreases |a|
  {
    if a == [] {
      assert a + b == b;
    } else {
      assert (a + b)[0] == a[0] && (a + b)[1..] == a[1..] + b;
      ApplyAppend(Apply(s, a[0]), a[1..], b);
    }
  }

  lemma {:induction false} ApplyCut(s: State, head: seq<Op>, tail: seq<Op>, n: nat)
    requires |head| <= n <= |head| + |tail|
    ensures ApplyAll(s, (head + tail)[..n]) == ApplyAll(ApplyAll(s, head), tail[..n - |head|])
  {
    assert (head + tail)[..n] == head + tail[..n - |head|];
    ApplyAppend(s, head, tail[..n - |head|]);
  }

  /** The SQLite store.  Each method is one transaction. */
  class Store {
    var tables: map<TableId, Entry>
    var tags: map<string, map<string, Tag>>
    var dependents: map<string, set<TableId>>

    function Contents(): State
      reads this
    {
      State(tables, tags, dependents)
    }

    constructor ()
      ensures Contents() == EMPTY_STORE
    {
      tables := map[];
      tags := map[];
      dependents := map[];
    }

    /** Delete and insert: the delete cascades, so every derived row of the table is gone. */
    method WriteTable(table: Table, rowCount: Option<int>)
      modifies this
      ensures Contents() == Apply(old(Contents()), PutTable(table, rowCount))
      ensures tables == old(tables)[table.id := Entry(table, rowCount, map[], map[], map[])] && tags == old(tags)
      ensures forall d :: d in dependents <==> d in old(dependents) && table.id !in old(dependents)[d]
      ensures forall d :: d in dependents ==> dependents[d] == old(dependents)[d]
    {
      tables := tables - {table.id};
      dependents := Spared(dependents, {table.id});
      tables := tables[table.id := Entry(table, rowCount, map[], map[], map[])];
    }

    method DeleteTable(id: TableId)
      modifies this
      ensures Contents() == Apply(old(Contents()), DropTable(id))
      ensures tables == old(tables) - {id} && tags == old(tags)
      ensures forall d :: d in dependents <==> d in old(dependents) && id !in old(dependents)[d]
      ensures forall d :: d in dependents ==> dependents[d] == old(dependents)[d]
    {
      tables := tables - {id};
      dependents := Spared(dependents, {id});
    }

    method WriteTableFingerprints(id: TableId, fingerprints: map<string, Fingerprints>)
      modifies this
      ensures Contents() == Apply(old(Contents()), PutFingerprints(id, fingerprints))
      ensures tags == old(tags) && dependents == old(dependents) && tables.Keys == old(tables).Keys
      ensures id in tables ==> tables == old(tables)[id := old(tables)[id].(fingerprints := fingerprints)]
      ensures id !in tables ==> tables == old(tables)
    {
      if id in tables {
        tables := tables[id := tables[id].(fingerprints := fingerprints)];
      }
    }

    method WriteTableDescriptions(id: TableId, descriptions: map<string, Description>)
      modifies this
      ensures Contents() == Apply(old(Contents()), PutDescriptions(id, descriptions))
      ensures tags == old(tags) && dependents == old(dependents) && tables.Keys == old(tables).Keys
      ensures id in tables ==> tables == old(tables)[id := old(tables)[id].(descriptions := descriptions)]
      ensures id !in tables ==> tables == old(tables)
    {
      if id in tables {
        tables := tables[id := tables[id].(descriptions := descriptions)];
      }
    }

    method WriteTableEmbeddings(id: TableId, embeddings: map<string, Embedding>)
      modifies this
      ensures Contents() == Apply(old(Contents()), PutEmbeddings(id, embeddings))
      ensures tags == old(tags) && dependents == old(dependents) && tables.Keys == old(tables).Keys
      ensures id in tables ==> tables == old(tables)[id := old(tables)[id].(embeddings := embeddings)]
      ensures id !in tables ==> tables == old(tables)
    {
      if id in tables {
        tables := tables[id := tables[id].(embeddings := embeddings)];
      }
    }

    method WriteColumnPiiTags(qualified: string, columnTags: map<string, Tag>)
      modifies this
      ensures Contents() == Apply(old(Contents()), PutTags(qualified, columnTags))
      ensures tables == old(tables) && dependents == old(dependents)
      ensures tags - {qualified} == old(tags) - {qualified}
      ensures qualified in tags <==> columnTags != map[]
      ensures qualified in tags ==> tags[qualified] == columnTags
    {
      tags := tags - {qualified};
      if columnTags != map[] {
        tags := tags[qualified := columnTags];
      }
    }
  }
}
