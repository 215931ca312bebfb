/** Merkle roots over the audit log: the leaf of a row is its canonical bytes, the ones the chain hashes. */
module LogRoots {
  import opened Bytes
  import opened Canonical
  import opened Chain
  import opened ChainSecurity
  import opened ChainTampering
  import opened Merkle
  import opened MerkleSecurity
  import opened Wrappers

  /** An unserialisable row is answered with status 422 naming it; a `TypeError` is not caught. */
  datatype ExportError = Unprocessable(rowId: int) | Uncaught

  predicate Exportable(rows: seq<AuditRow>) {
    forall r :: r in rows ==> RowBytes(r).Ok?
  }

  /** One leaf a row. */
  function Leaves(rows: seq<AuditRow>): (leaves: seq<Bytes>)
    ensures |leaves| == |rows|
    ensures forall i :: 0 <= i < |rows| ==> leaves[i] == Content(rows[i])
  {
    seq(|rows|, i requires 0 <= i < |rows| => Content(rows[i]))
  }

  /** The serialisations, successful or not. */
  function Serialised(rows: seq<AuditRow>): (results: seq<Result<Bytes, Error>>)
    ensures |results| == |rows|
  {
    seq(|rows|, i requires 0 <= i < |rows| => RowBytes(rows[i]))
  }

  predicate AllOk(results: seq<Result<Bytes, Error>>) {
    forall i :: 0 <= i < |results| ==> results[i].Ok?
  }

  /** `bytes` are the values of the first `k` results. */
  predicate Collected(results: seq<Result<Bytes, Error>>, k: nat, bytes: seq<Bytes>) {
    |bytes| == k <= |results| && forall i :: 0 <= i < k ==> results[i] == Ok(bytes[i])
  }

  lemma {:induction false} CollectedAll(rows: seq<AuditRow>, bytes: seq<Bytes>)
    requires Collected(Serialised(rows), |rows|, bytes)
    ensures Exportable(rows) && bytes == Leaves(rows)
  {
    forall i | 0 <= i < |rows| ensures RowBytes(rows[i]) == Ok(bytes[i]) && Leaves(rows)[i] == bytes[i] {
      assert Serialised(rows)[i] == RowBytes(rows[i]);
    }
  }

  /** Row `k` is the first that does not serialise. */
  ghost predicate FirstFailure(rows: seq<AuditRow>, k: nat, e: Error) {
    k < |rows| && AllOk(Serialised(rows)[..k]) && Serialised(rows)[k] == Err(e)
  }

  method AuditLeafPreimages(rows: seq<AuditRow>) returns (leaves: Result<seq<Bytes>, ExportError>)
    ensures leaves.Ok? ==> Exportable(rows) && leaves.value == Leaves(rows)
    ensures leaves == Err(Uncaught) ==> exists k: nat :: FirstFailure(rows, k, TypeError)
    ensures leaves.Err? && leaves.error.Unprocessable? ==>
              exists k: nat :: FirstFailure(rows, k, ValueError) && leaves.error.rowId == rows[k].id
  {
    var out: seq<Bytes> := [];
    ghost var results := Serialised(rows);
    for k := 0 to |rows|
      invariant Collected(results, k, out)
    {
      var bytes := RowBytes(rows[k]);
      assert results[k] == bytes;
      if bytes.Err? {
        assert FirstFailure(rows, k, bytes.error);
        return Err(if bytes.error == TypeError then Uncaught else Unprocessable(rows[k].id));
      }
      out := out + [bytes.value];
    }
    CollectedAll(rows, out);
    return Ok(out);
  }

  /** A log the walk finds clean can always be exported. */
  lemma {:induction false} CleanExports(H: HashFunction, rows: seq<AuditRow>)
    requires Clean(H, GENESIS_CHAIN_HASH, rows)
    ensures Exportable(rows)
  {
    forall r | r in rows ensures RowBytes(r).Ok? {
      var i :| 0 <= i < |rows| && rows[i] == r;
      CleanSerialises(H, GENESIS_CHAIN_HASH, rows, i);
    }
  }

  predicate SameRows(a: seq<AuditRow>, b: seq<AuditRow>) {
    |a| == |b| && forall i :: 0 <= i < |a| ==> SameContent(a[i], b[i])
  }

  lemma {:induction false} SameRowsSameLeaves(a: seq<AuditRow>, b: seq<AuditRow>)
    requires SameRows(a, b)
    ensures Leaves(a) == Leaves(b)
  {
    forall i | 0 <= i < |a| ensures Leaves(a)[i] == Leaves(b)[i] {
      assert RowBytes(a[i]) == RowBytes(b[i]);
    }
  }

  lemma {:induction false} LeavesBind(a: seq<AuditRow>, b: seq<AuditRow>)
    requires Exportable(a) && Exportable(b)
    ensures Leaves(a) == Leaves(b) <==> SameRows(a, b)
  {
    if Leaves(a) == Leaves(b) {
      forall i | 0 <= i < |a| ensures SameContent(a[i], b[i]) {
        assert Content(a[i]) == Leaves(a)[i] == Leaves(b)[i] == Content(b[i]);
        ContentBinds(a[i], b[i]);
      }
    }
    if SameRows(a, b) {
      SameRowsSameLeaves(a, b);
    }
  }

  /** One root, one log: two exported logs with equal roots hold the same rows in the same order. */
  lemma {:induction false} RootBindsLog(H: HashFunction, a: seq<AuditRow>, b: seq<AuditRow>)
    requires Exportable(a) && Exportable(b) && MerkleRoot(H, Leaves(a)) == MerkleRoot(H, Leaves(b))
    ensures SameRows(a, b) || Breaks(H, RootCollision(H, Leaves(a), Leaves(b)))
  {
    RootBinding(H, Leaves(a), Leaves(b));
    LeavesBind(a, b);
  }

  /** A row accepted at a position of a log's root is the row the log holds there. */
  lemma {:induction false} ProvenRow(H: HashFunction, rows: seq<AuditRow>, i: int, claimed: AuditRow, path: seq<Bytes>)
    requires Exportable(rows) && RowBytes(claimed).Ok?
    requires Verifies(H, i, |rows|, LeafHash(H, Content(claimed)), path, MerkleRoot(H, Leaves(rows)))
    ensures || SameContent(claimed, rows[i])
            || Breaks(H, PositionEvidence(H, Leaves(rows), i, Content(claimed), path))
  {
    Position(H, Leaves(rows), i, Content(claimed), path);
    if Content(claimed) == Leaves(rows)[i] {
      ContentBinds(claimed, rows[i]);
    }
  }

  /** The hash chain over bare canonical bytes. */
  function ChainOver(H: HashFunction, prev: Bytes, leaves: seq<Bytes>): Bytes
    decreases |leaves|, H
  {
    if leaves == [] then prev else ChainOver(H, H(prev + leaves[0]), leaves[1..])
  }

  lemma {:induction false} FirstLeaf(H: HashFunction, prev: Bytes, rows: seq<AuditRow>)
    requires rows != []
    ensures Leaves(rows)[0] == Content(rows[0]) && Leaves(rows)[1..] == Leaves(rows[1..])
    ensures LastHash(prev, rows) == LastHash(StoredHash(rows[0]), rows[1..])
  {
    assert rows == [rows[0]] + rows[1..];
    LastHashAppend(prev, [rows[0]], rows[1..]);
  }

  lemma {:induction false} HeadOfLeaves(H: HashFunction, prev: Bytes, rows: seq<AuditRow>)
    requires Clean(H, prev, rows)
    ensures LastHash(prev, rows) == ChainOver(H, prev, Leaves(rows))
    decreases |rows|
  {
    if rows != [] {
      CleanStep(H, prev, rows);
      PassMeans(H, prev, rows[0]);
      HeadOfLeaves(H, StoredHash(rows[0]), rows[1..]);
      FirstLeaf(H, prev, rows);
    }
  }

  /** Chain and tree certify the same thing: two clean logs agree on their head hash iff they agree on
      their Merkle root, unless one of the extractors yields evidence. */
  lemma {:induction false} HeadIffRoot(H: HashFunction, a: seq<AuditRow>, b: seq<AuditRow>)
    requires Clean(H, GENESIS_CHAIN_HASH, a) && Clean(H, GENESIS_CHAIN_HASH, b)
    ensures || (LastHash(GENESIS_CHAIN_HASH, a) == LastHash(GENESIS_CHAIN_HASH, b) <==>
                MerkleRoot(H, Leaves(a)) == MerkleRoot(H, Leaves(b)))
            || Breaks(H, HeadEvidence(H, a, b))
            || Breaks(H, RootCollision(H, Leaves(a), Leaves(b)))
  {
    CleanExports(H, a);
    CleanExports(H, b);
    LeavesBind(a, b);
    HeadOfLeaves(H, GENESIS_CHAIN_HASH, a);
    HeadOfLeaves(H, GENESIS_CHAIN_HASH, b);
    if LastHash(GENESIS_CHAIN_HASH, a) == LastHash(GENESIS_CHAIN_HASH, b) {
      HeadBinding(H, a, b);
    }
    if MerkleRoot(H, Leaves(a)) == MerkleRoot(H, Leaves(b)) {
      RootBindsLog(H, a, b);
    }
  }
}
