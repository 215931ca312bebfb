/** What editing a clean audit table makes the walk report, and what an edit it does not report
    must have broken. */
module ChainTampering {
  import opened Bytes
  import opened Canonical
  import opened Chain
  import opened ChainSecurity
  import opened Encodings
  import opened Wrappers

  /** The content of a clean row. */
  function Content(r: AuditRow): Bytes {
    match RowBytes(r) case Ok(b) => b case Err(_) => []
  }

  /** Two rows the log cannot tell apart: same thirteen canonical columns. */
  predicate SameContent(r: AuditRow, s: AuditRow) {
    CanonicalDict(r) == CanonicalDict(s)
  }

  /** When a row passes: it serialises, the baseline has 32 bytes, the stored hash extends it. */
  lemma {:induction false} PassMeans(H: HashFunction, prev: Bytes, r: AuditRow)
    ensures CheckRow(H, prev, r).Passes? <==>
            RowBytes(r).Ok? && ToBytes(r.chainHash).Ok? && |prev| == 32 && StoredHash(r) == H(prev + Content(r))
  {
  }

  /** Equal canonical bytes are equal thirteen columns, the id among them. */
  lemma {:induction false} ContentBinds(r: AuditRow, s: AuditRow)
    requires RowBytes(r).Ok? && RowBytes(r) == RowBytes(s)
    ensures SameContent(r, s) && r.id == s.id
  {
    var a, b := CanonicalDict(r).value, CanonicalDict(s).value;
    Injective(a, b);
    assert a["id"] == SqlInteger(r.id) && b["id"] == SqlInteger(s.id);
  }

  lemma {:induction false} CleanStep(H: HashFunction, prev: Bytes, rows: seq<AuditRow>)
    requires rows != []
    ensures Clean(H, prev, rows) <==> CheckRow(H, prev, rows[0]).Passes? && Clean(H, StoredHash(rows[0]), rows[1..])
  {
  }

  /** A clean block in front does not show in the walk. */
  lemma {:induction false} DropClean(H: HashFunction, prev: Bytes, kept: seq<AuditRow>, rest: seq<AuditRow>)
    requires Clean(H, prev, kept)
    ensures FullWalk(H, prev, kept + rest) == FullWalk(H, LastHash(prev, kept), rest)
  {
    Compose(H, prev, kept, rest);
    var w := FullWalk(H, LastHash(prev, kept), rest);
    SequelStep([], w, w);
  }

  /** What the walk makes of one row followed by a block that is clean behind its stored hash. */
  function EditReport(c: RowCheck, rest: Walk): Walk {
    match c
    case Raises(e) => Walk([], Some(e))
    case Passes => rest
    case Fails(m) => Then([m], rest)
  }

  lemma {:induction false} WalkCons(H: HashFunction, prev: Bytes, r: AuditRow, rest: seq<AuditRow>)
    ensures FullWalk(H, prev, [r] + rest) ==
            EditReport(CheckRow(H, prev, r), FullWalk(H, StoredHash(r), rest))
  {
    assert ([r] + rest)[1..] == rest;
  }

  /** A clean table is clean up to, at and behind every row. */
  lemma {:induction false} CleanAt(H: HashFunction, prev: Bytes, rows: seq<AuditRow>, i: nat)
    requires i < |rows| && Clean(H, prev, rows)
    ensures Clean(H, prev, rows[..i])
    ensures CheckRow(H, LastHash(prev, rows[..i]), rows[i]).Passes?
    ensures Clean(H, StoredHash(rows[i]), rows[i + 1..])
  {
    var rest := rows[i..];
    assert rows == rows[..i] + rest && rest[1..] == rows[i + 1..];
    CleanSplit(H, prev, rows[..i], rest);
    CleanStep(H, LastHash(prev, rows[..i]), rest);
  }

  lemma {:induction false} LastLink(H: HashFunction, prev: Bytes, rows: seq<AuditRow>)
    requires rows != [] && Clean(H, prev, rows)
    ensures var n := |rows| - 1;
            Clean(H, prev, rows[..n]) && CheckRow(H, LastHash(prev, rows[..n]), rows[n]).Passes?
  {
    CleanAt(H, prev, rows, |rows| - 1);
  }

  // ---------------------------------------------------------------------------
  // One head, one log
  // ---------------------------------------------------------------------------

  /** What was hashed into the last stored hash of a non-empty clean log. */
  function HeadPreimage(prev: Bytes, rows: seq<AuditRow>): Bytes
    requires rows != []
  {
    LastHash(prev, rows[..|rows| - 1]) + Content(rows[|rows| - 1])
  }

  lemma {:induction false} HeadPreimageHashes(H: HashFunction, prev: Bytes, rows: seq<AuditRow>)
    requires rows != [] && Clean(H, prev, rows)
    ensures H(HeadPreimage(prev, rows)) == LastHash(prev, rows)
  {
    LastLink(H, prev, rows);
  }

  /** Reads two logs from their heads back to the first preimage in which they differ. */
  function HeadEvidence(H: HashFunction, a: seq<AuditRow>, b: seq<AuditRow>): Evidence
    decreases |a|, H
  {
    if a == [] && b == [] then NoEvidence
    else if a == [] then GenesisPreimage(HeadPreimage(GENESIS_CHAIN_HASH, b))
    else if b == [] then GenesisPreimage(HeadPreimage(GENESIS_CHAIN_HASH, a))
    else if HeadPreimage(GENESIS_CHAIN_HASH, a) != HeadPreimage(GENESIS_CHAIN_HASH, b) then
      Collision(HeadPreimage(GENESIS_CHAIN_HASH, a), HeadPreimage(GENESIS_CHAIN_HASH, b))
    else HeadEvidence(H, a[..|a| - 1], b[..|b| - 1])
  }

  predicate SameLog(a: seq<AuditRow>, b: seq<AuditRow>) {
    && |a| == |b|
    && forall i :: 0 <= i < |a| ==> SameContent(a[i], b[i]) && StoredHash(a[i]) == StoredHash(b[i])
  }

  lemma {:induction false} SameLogSnoc(a: seq<AuditRow>, b: seq<AuditRow>)
    requires a != [] && b != [] && SameLog(a[..|a| - 1], b[..|b| - 1])
    requires SameContent(a[|a| - 1], b[|b| - 1]) && StoredHash(a[|a| - 1]) == StoredHash(b[|b| - 1])
    ensures SameLog(a, b)
  {
    forall i | 0 <= i < |a| ensures SameContent(a[i], b[i]) && StoredHash(a[i]) == StoredHash(b[i]) {
      if i < |a| - 1 { assert a[i] == a[..|a| - 1][i] && b[i] == b[..|b| - 1][i]; }
    }
  }

  /** Equal last preimages split into equal contents and equal earlier heads. */
  lemma {:induction false} PeelHeads(H: HashFunction, a: seq<AuditRow>, b: seq<AuditRow>)
    requires a != [] && b != [] && Clean(H, GENESIS_CHAIN_HASH, a) && Clean(H, GENESIS_CHAIN_HASH, b)
    requires HeadPreimage(GENESIS_CHAIN_HASH, a) == HeadPreimage(GENESIS_CHAIN_HASH, b)
    ensures var a', b' := a[..|a| - 1], b[..|b| - 1];
            && Clean(H, GENESIS_CHAIN_HASH, a') && Clean(H, GENESIS_CHAIN_HASH, b')
            && LastHash(GENESIS_CHAIN_HASH, a') == LastHash(GENESIS_CHAIN_HASH, b')
    ensures SameContent(a[|a| - 1], b[|b| - 1])
  {
    var x, y := a[|a| - 1], b[|b| - 1];
    var h, g := LastHash(GENESIS_CHAIN_HASH, a[..|a| - 1]), LastHash(GENESIS_CHAIN_HASH, b[..|b| - 1]);
    LastLink(H, GENESIS_CHAIN_HASH, a);
    LastLink(H, GENESIS_CHAIN_HASH, b);
    PassMeans(H, h, x);
    PassMeans(H, g, y);
    SplitPrefix(h, Content(x), g, Content(y));
    ContentBinds(x, y);
  }

  /** Two clean logs with one head hash hold the same rows in the same order, whatever their
      lengths, or the extractor's output is a real collision or a real preimage of genesis. */
  lemma {:induction false} HeadBinding(H: HashFunction, a: seq<AuditRow>, b: seq<AuditRow>)
    requires Clean(H, GENESIS_CHAIN_HASH, a) && Clean(H, GENESIS_CHAIN_HASH, b)
    requires LastHash(GENESIS_CHAIN_HASH, a) == LastHash(GENESIS_CHAIN_HASH, b)
    ensures SameLog(a, b) || Breaks(H, HeadEvidence(H, a, b))
    decreases |a|
  {
    if a != [] { HeadPreimageHashes(H, GENESIS_CHAIN_HASH, a); }
    if b != [] { HeadPreimageHashes(H, GENESIS_CHAIN_HASH, b); }
    if a != [] && b != [] && HeadPreimage(GENESIS_CHAIN_HASH, a) == HeadPreimage(GENESIS_CHAIN_HASH, b) {
      PeelHeads(H, a, b);
      HeadBinding(H, a[..|a| - 1], b[..|b| - 1]);
      if SameLog(a[..|a| - 1], b[..|b| - 1]) {
        SameLogSnoc(a, b);
      }
    }
  }

  // ---------------------------------------------------------------------------
  // Rows as stored
  // ---------------------------------------------------------------------------

  /** The binary columns hold what the writer binds: BLOB or NULL. */
  predicate TypedColumns(r: AuditRow) {
    forall c :: c in BINARY && c in Columns(r) ==> !Columns(r)[c].SqlInteger?
  }

  lemma {:induction false} DictIsColumns(r: AuditRow)
    requires TypedColumns(r) && CanonicalDict(r).Ok?
    ensures CanonicalDict(r).value == Columns(r)
  {
    var columns := Columns(r);
    forall k | k in columns ensures Normalised(k, columns[k]) == columns[k] {
      if k == "ast_shape_hash" {
        assert ColumnError(columns, "ast_shape_hash").None?;
      } else if k == "fingerprint" {
        assert ColumnError(columns, "fingerprint").None?;
      }
    }
  }

  /** The same of the two rows' binary columns hold integers. */
  predicate SameStorage(r: AuditRow, s: AuditRow) {
    forall c :: c in BINARY && c in Columns(r) && c in Columns(s) ==>
                  (Columns(r)[c].SqlInteger? <==> Columns(s)[c].SqlInteger?)
  }

  lemma {:induction false} BinaryBinds(column: string, x: Cell, y: Cell)
    requires Normalise(column, x).Ok? && Normalise(column, x) == Normalise(column, y)
    requires column in BINARY ==> (x.SqlInteger? <==> y.SqlInteger?)
    ensures x == y
  {
    if column in BINARY && x.SqlInteger? {
      assert |Zeros(x.n)| == |Zeros(y.n)|;
    }
  }

  lemma {:induction false} DictColumn(r: AuditRow, column: string)
    requires CanonicalDict(r).Ok? && column in Columns(r)
    ensures column in CanonicalDict(r).value && Normalise(column, Columns(r)[column]) == Ok(CanonicalDict(r).value[column])
  {
    assert ColumnError(Columns(r), "ast_shape_hash").None? && ColumnError(Columns(r), "fingerprint").None?;
  }

  /** Rows with the same content are the same cell by cell iff their binary columns are stored alike. */
  lemma {:induction false} FieldByField(r: AuditRow, s: AuditRow)
    requires CanonicalDict(r).Ok? && SameContent(r, s)
    ensures Columns(r) == Columns(s) <==> SameStorage(r, s)
  {
    var a, b := Columns(r), Columns(s);
    assert a.Keys == CanonicalDict(r).value.Keys && b.Keys == CanonicalDict(s).value.Keys;
    if SameStorage(r, s) {
      forall c | c in a ensures a[c] == b[c] {
        DictColumn(r, c);
        DictColumn(s, c);
        BinaryBinds(c, a[c], b[c]);
      }
    }
  }

  function WithFingerprint(r: AuditRow, c: Cell): AuditRow {
    r.(content := r.content["fingerprint" := c])
  }

  lemma {:induction false} IntegerIsNotBlob(r: AuditRow)
    ensures Columns(WithFingerprint(r, SqlInteger(32))) != Columns(WithFingerprint(r, SqlBlob(Zeros(32))))
  {
    assert Columns(WithFingerprint(r, SqlInteger(32)))["fingerprint"] == SqlInteger(32);
    assert Columns(WithFingerprint(r, SqlBlob(Zeros(32))))["fingerprint"] == SqlBlob(Zeros(32));
  }

  lemma {:induction false} SameErrorEitherWay(r: AuditRow)
    ensures var a, b := Columns(WithFingerprint(r, SqlInteger(32))), Columns(WithFingerprint(r, SqlBlob(Zeros(32))));
            && ColumnError(a, "ast_shape_hash") == ColumnError(b, "ast_shape_hash")
            && ColumnError(a, "fingerprint") == ColumnError(b, "fingerprint") == None
  {
  }

  lemma {:induction false} SameColumnsEitherWay(r: AuditRow)
    ensures var a, b := Columns(WithFingerprint(r, SqlInteger(32))), Columns(WithFingerprint(r, SqlBlob(Zeros(32))));
            a.Keys == b.Keys && forall k :: k in a ==> Normalised(k, a[k]) == Normalised(k, b[k])
  {
    var a, b := Columns(WithFingerprint(r, SqlInteger(32))), Columns(WithFingerprint(r, SqlBlob(Zeros(32))));
    assert forall k :: k in a && k != "fingerprint" ==> a[k] == b[k];
    assert Normalised("fingerprint", SqlInteger(32)) == SqlBlob(Zeros(32)) == Normalised("fingerprint", SqlBlob(Zeros(32)));
  }

  lemma {:induction false} SameDictEitherWay(r: AuditRow)
    ensures CanonicalDict(WithFingerprint(r, SqlInteger(32))) == CanonicalDict(WithFingerprint(r, SqlBlob(Zeros(32))))
  {
    var a, b := Columns(WithFingerprint(r, SqlInteger(32))), Columns(WithFingerprint(r, SqlBlob(Zeros(32))));
    SameErrorEitherWay(r);
    SameColumnsEitherWay(r);
    assert (map k | k in a :: Normalised(k, a[k])) == (map k | k in b :: Normalised(k, b[k]));
  }

  /** They need not be: the integer 32 stored in a BLOB column reads back as 32 zero bytes,
      so an integer and that blob can be exchanged under one chain hash. */
  lemma {:induction false} IntegerPassesForZeros(H: HashFunction, prev: Bytes, r: AuditRow)
    ensures var asInteger, asBlob := WithFingerprint(r, SqlInteger(32)), WithFingerprint(r, SqlBlob(Zeros(32)));
            && Columns(asInteger) != Columns(asBlob)
            && CanonicalDict(asInteger) == CanonicalDict(asBlob)
            && CheckRow(H, prev, asInteger) == CheckRow(H, prev, asBlob)
  {
    SameDictEitherWay(r);
    IntegerIsNotBlob(r);
  }

  lemma {:induction false} CleanSerialises(H: HashFunction, prev: Bytes, rows: seq<AuditRow>, i: nat)
    requires Clean(H, prev, rows) && i < |rows|
    ensures CheckRow(H, LastHash(prev, rows[..i]), rows[i]).Passes?
    ensures RowBytes(rows[i]).Ok? && CanonicalDict(rows[i]).Ok?
  {
    CleanAt(H, prev, rows, i);
    PassMeans(H, LastHash(prev, rows[..i]), rows[i]);
  }

  /** The head hash fixes every stored cell of every row, as far as binary columns are stored alike. */
  lemma {:induction false} HeadBindsCells(H: HashFunction, a: seq<AuditRow>, b: seq<AuditRow>)
    requires Clean(H, GENESIS_CHAIN_HASH, a) && Clean(H, GENESIS_CHAIN_HASH, b)
    requires LastHash(GENESIS_CHAIN_HASH, a) == LastHash(GENESIS_CHAIN_HASH, b)
    ensures || Breaks(H, HeadEvidence(H, a, b))
            || (|a| == |b| && forall i :: 0 <= i < |a| ==>
                  && StoredHash(a[i]) == StoredHash(b[i])
                  && (Columns(a[i]) == Columns(b[i]) <==> SameStorage(a[i], b[i])))
  {
    HeadBinding(H, a, b);
    if SameLog(a, b) {
      forall i | 0 <= i < |a|
        ensures StoredHash(a[i]) == StoredHash(b[i]) && (Columns(a[i]) == Columns(b[i]) <==> SameStorage(a[i], b[i]))
      {
        CleanSerialises(H, GENESIS_CHAIN_HASH, a, i);
        FieldByField(a[i], b[i]);
      }
    }
  }

  // ---------------------------------------------------------------------------
  // Deleting rows
  // ---------------------------------------------------------------------------

  /** Two clean blocks from one baseline, one extending the other, that leave the same hash. */
  function GapEvidence(prev: Bytes, kept: seq<AuditRow>, gone: seq<AuditRow>, next: AuditRow): Evidence
    requires gone != []
  {
    if LastHash(prev, kept) != LastHash(prev, kept + gone) then
      Collision(LastHash(prev, kept) + Content(next), LastHash(prev, kept + gone) + Content(next))
    else if kept == [] then GenesisPreimage(HeadPreimage(prev, gone))
    else Collision(HeadPreimage(prev, kept), HeadPreimage(prev, kept + gone))
  }

  /** Different rows at two heads make different preimages: the id is inside the hashed bytes. */
  lemma {:induction false} HeadsDiffer(H: HashFunction, prev: Bytes, a: seq<AuditRow>, b: seq<AuditRow>)
    requires a != [] && b != [] && Clean(H, prev, a) && Clean(H, prev, b)
    requires a[|a| - 1].id != b[|b| - 1].id
    ensures HeadPreimage(prev, a) != HeadPreimage(prev, b)
  {
    var x, y := a[|a| - 1], b[|b| - 1];
    var h, g := LastHash(prev, a[..|a| - 1]), LastHash(prev, b[..|b| - 1]);
    LastLink(H, prev, a);
    LastLink(H, prev, b);
    PassMeans(H, h, x);
    PassMeans(H, g, y);
    if h + Content(x) == g + Content(y) {
      SplitPrefix(h, Content(x), g, Content(y));
      ContentBinds(x, y);
    }
  }

  /** The walk over what is left when `gone` is cut out between `kept` and `rest`. */
  lemma {:induction false} WalkOverGap(H: HashFunction, prev: Bytes, kept: seq<AuditRow>, gone: seq<AuditRow>, rest: seq<AuditRow>)
    requires rest != [] && Clean(H, prev, kept + gone + rest)
    ensures Clean(H, prev, kept) && Clean(H, prev, kept + gone)
    ensures CheckRow(H, LastHash(prev, kept + gone), rest[0]).Passes?
    ensures FullWalk(H, prev, kept + rest) ==
            match CheckRow(H, LastHash(prev, kept), rest[0])
            case Raises(e) => Walk([], Some(e))
            case Passes => Walk([], None)
            case Fails(m) => Walk([m], None)
  {
    var h := LastHash(prev, kept);
    CleanSplit(H, prev, kept + gone, rest);
    CleanSplit(H, prev, kept, gone);
    CleanStep(H, LastHash(prev, kept + gone), rest);
    Compose(H, prev, kept, rest);
    SequelStep([], FullWalk(H, h, rest), FullWalk(H, h, rest));
  }

  lemma {:induction false} BaselineWidth(H: HashFunction, prev: Bytes, rows: seq<AuditRow>)
    requires Clean(H, prev, rows) && |prev| == 32
    ensures |LastHash(prev, rows)| == 32
  {
    if rows != [] {
      LastLink(H, prev, rows);
      PassMeans(H, LastHash(prev, rows[..|rows| - 1]), rows[|rows| - 1]);
    }
  }

  lemma {:induction false} IdsAcross(kept: seq<AuditRow>, gone: seq<AuditRow>, rest: seq<AuditRow>)
    requires kept != [] && gone != [] && ValidTable(kept + gone + rest)
    ensures kept[|kept| - 1].id != (kept + gone)[|kept + gone| - 1].id
  {
    var all := kept + gone + rest;
    assert all[|kept| - 1] == kept[|kept| - 1];
    assert all[|kept + gone| - 1] == (kept + gone)[|kept + gone| - 1];
  }

  lemma {:induction false} PrefixesDiffer(h: Bytes, g: Bytes, tail: Bytes)
    requires h != g && |h| == |g|
    ensures h + tail != g + tail
  {
    if h + tail == g + tail { SplitPrefix(h, tail, g, tail); }
  }

  /** Removing a non-empty block that is not a suffix makes the full walk report exactly the first
      row after the gap, with the hash it would have had there, or two colliding byte strings (or a
      preimage of genesis) can be computed from the log. */
  lemma {:induction false} InteriorDeletion(H: HashFunction, kept: seq<AuditRow>, gone: seq<AuditRow>, rest: seq<AuditRow>)
    requires gone != [] && rest != []
    requires ValidTable(kept + gone + rest) && Clean(H, GENESIS_CHAIN_HASH, kept + gone + rest)
    ensures var first := rest[0];
            var expected := H(LastHash(GENESIS_CHAIN_HASH, kept) + Content(first));
            || FullWalk(H, GENESIS_CHAIN_HASH, kept + rest) ==
               Walk([ChainMismatch(first.id, Digest(Hex(expected)), Hex(StoredHash(first)))], None)
            || Breaks(H, GapEvidence(GENESIS_CHAIN_HASH, kept, gone, first))
  {
    var prev, first := GENESIS_CHAIN_HASH, rest[0];
    var h, g := LastHash(prev, kept), LastHash(prev, kept + gone);
    WalkOverGap(H, prev, kept, gone, rest);
    PassMeans(H, g, first);
    BaselineWidth(H, prev, kept);
    if h == g {
      HeadPreimageHashes(H, prev, kept + gone);
      if kept == [] {
        assert kept + gone == gone;
      } else {
        HeadPreimageHashes(H, prev, kept);
        IdsAcross(kept, gone, rest);
        HeadsDiffer(H, prev, kept, kept + gone);
      }
    } else if H(h + Content(first)) == StoredHash(first) {
      PrefixesDiffer(h, g, Content(first));
    }
  }

  // ---------------------------------------------------------------------------
  // Editing one row
  // ---------------------------------------------------------------------------

  lemma {:induction false} EditedRows(rows: seq<AuditRow>, i: nat, edited: AuditRow)
    requires i < |rows|
    ensures rows[i := edited] == rows[..i] + ([edited] + rows[i + 1..])
  {
  }

  /** The walk over a clean table with row `i` exchanged for `edited`. */
  lemma {:induction false} WalkOverEdit(H: HashFunction, prev: Bytes, rows: seq<AuditRow>, i: nat, edited: AuditRow)
    requires i < |rows| && Clean(H, prev, rows)
    ensures FullWalk(H, prev, rows[i := edited]) ==
            EditReport(CheckRow(H, LastHash(prev, rows[..i]), edited), FullWalk(H, StoredHash(edited), rows[i + 1..]))
  {
    CleanAt(H, prev, rows, i);
    EditedRows(rows, i, edited);
    WalkCons(H, LastHash(prev, rows[..i]), edited, rows[i + 1..]);
    DropClean(H, prev, rows[..i], [edited] + rows[i + 1..]);
  }

  lemma {:induction false} SuffixesDiffer(h: Bytes, a: Bytes, b: Bytes)
    requires a != b
    ensures h + a != h + b
  {
    if h + a == h + b { SplitPrefix(h, a, h, b); }
  }

  /** Editing a row but not its stored hash, and not its place in the order of ids, concerns that row alone.  An edit that still serialises
      is reported there and nowhere else unless it changed none of the thirteen columns or collides
      with the original bytes; one that raises `ValueError` is reported as unserialisable; a BLOB in
      a text column ends the walk with a `TypeError` and nothing reported. */
  lemma {:induction false} ContentEdit(H: HashFunction, prev: Bytes, rows: seq<AuditRow>, i: nat, edited: AuditRow)
    requires i < |rows| && Clean(H, prev, rows) && edited.chainHash == rows[i].chainHash
    requires ValidTable(rows[i := edited])
    ensures var h, w := LastHash(prev, rows[..i]), FullWalk(H, prev, rows[i := edited]);
            var stored := Hex(StoredHash(rows[i]));
            match RowBytes(edited)
            case Err(ValueError) => w == Walk([ChainMismatch(edited.id, CanonicalisationError, stored)], None)
            case Err(TypeError) => w == Walk([], Some(TypeError))
            case Ok(bytes) =>
              if SameContent(edited, rows[i]) then w == Walk([], None)
              else
                || w == Walk([ChainMismatch(edited.id, Digest(Hex(H(h + bytes))), stored)], None)
                || Breaks(H, Collision(h + bytes, h + Content(rows[i])))
  {
    var h := LastHash(prev, rows[..i]);
    WalkOverEdit(H, prev, rows, i, edited);
    CleanAt(H, prev, rows, i);
    CleanSerialises(H, prev, rows, i);
    PassMeans(H, h, rows[i]);
    PassMeans(H, h, edited);
    if RowBytes(edited).Ok? && !SameContent(edited, rows[i]) {
      if Content(edited) == Content(rows[i]) {
        ContentBinds(edited, rows[i]);
      }
      SuffixesDiffer(h, Content(edited), Content(rows[i]));
    }
  }

  /** What the row behind an edited stored hash makes of it. */
  function NextReport(H: HashFunction, altered: Bytes, next: AuditRow): Walk {
    if |altered| != CHAIN_HASH_SIZE then Walk([], Some(ValueError))
    else Walk([ChainMismatch(next.id, Digest(Hex(H(altered + Content(next)))), Hex(StoredHash(next)))], None)
  }

  function SuccessorReport(H: HashFunction, altered: Bytes, rest: seq<AuditRow>): Walk {
    if rest == [] then Walk([], None) else NextReport(H, altered, rest[0])
  }

  /** What replacing the stored hash of row `i` by bytes of another value makes the walk report. */
  function HashReport(H: HashFunction, rows: seq<AuditRow>, i: nat, altered: Bytes): Walk
    requires i < |rows|
  {
    Then([ChainMismatch(rows[i].id, Digest(Hex(StoredHash(rows[i]))), Hex(altered))],
         SuccessorReport(H, altered, rows[i + 1..]))
  }

  lemma {:induction false} HashEditCheck(H: HashFunction, h: Bytes, r: AuditRow, cell: Cell)
    requires CheckRow(H, h, r).Passes?
    ensures CheckRow(H, h, r.(chainHash := cell)) ==
            match ToBytes(cell)
            case Err(e) => Raises(e)
            case Ok(altered) =>
              if altered == StoredHash(r) then Passes
              else Fails(ChainMismatch(r.id, Digest(Hex(StoredHash(r))), Hex(altered)))
  {
    PassMeans(H, h, r);
    assert RowBytes(r.(chainHash := cell)) == RowBytes(r);
  }

  lemma {:induction false} WalkBeforeClean(H: HashFunction, prev: Bytes, r: AuditRow, rest: seq<AuditRow>)
    requires Clean(H, StoredHash(r), rest)
    ensures FullWalk(H, prev, [r] + rest) == EditReport(CheckRow(H, prev, r), Walk([], None))
  {
    WalkCons(H, prev, r, rest);
  }

  lemma {:induction false} SuccessorLink(H: HashFunction, stored: Bytes, altered: Bytes, next: AuditRow)
    requires CheckRow(H, stored, next).Passes? && altered != stored
    ensures || EditReport(CheckRow(H, altered, next), Walk([], None)) == NextReport(H, altered, next)
            || (|altered| == 32 && Breaks(H, Collision(altered + Content(next), stored + Content(next))))
  {
    PassMeans(H, stored, next);
    if |altered| == 32 { PrefixesDiffer(altered, stored, Content(next)); }
  }

  lemma {:induction false} SuccessorCheck(H: HashFunction, stored: Bytes, altered: Bytes, rest: seq<AuditRow>)
    requires rest != [] && Clean(H, stored, rest) && altered != stored
    ensures || FullWalk(H, altered, rest) == NextReport(H, altered, rest[0])
            || (|altered| == 32 && Breaks(H, Collision(altered + Content(rest[0]), stored + Content(rest[0]))))
  {
    CleanStep(H, stored, rest);
    SuccessorLink(H, stored, altered, rest[0]);
    WalkBeforeClean(H, altered, rest[0], rest[1..]);
    assert rest == [rest[0]] + rest[1..];
  }

  /** Editing only the stored hash: a text, NULL or a negative integer ends the walk at that row.  A value
      that reads as other bytes is reported there and at the successor, if any, and nowhere else, unless
      the successor's two preimages collide; unless it reads as 32 bytes, the walk ends at the successor. */
  lemma {:induction false} HashEdit(H: HashFunction, prev: Bytes, rows: seq<AuditRow>, i: nat, cell: Cell)
    requires i < |rows| && Clean(H, prev, rows)
    ensures var w := FullWalk(H, prev, rows[i := rows[i].(chainHash := cell)]);
            match ToBytes(cell)
            case Err(e) => w == Walk([], Some(e))
            case Ok(altered) =>
              if altered == StoredHash(rows[i]) then w == Walk([], None)
              else
                || w == HashReport(H, rows, i, altered)
                || (&& i + 1 < |rows| && |altered| == 32
                    && Breaks(H, Collision(altered + Content(rows[i + 1]), StoredHash(rows[i]) + Content(rows[i + 1]))))
  {
    var edited := rows[i].(chainHash := cell);
    var h, rest := LastHash(prev, rows[..i]), rows[i + 1..];
    WalkOverEdit(H, prev, rows, i, edited);
    CleanAt(H, prev, rows, i);
    HashEditCheck(H, h, rows[i], cell);
    if ToBytes(cell).Ok? && StoredHash(edited) != StoredHash(rows[i]) && rest != [] {
      SuccessorCheck(H, StoredHash(rows[i]), StoredHash(edited), rest);
    }
  }
}
