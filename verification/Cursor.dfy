/** Resolving `--since` to a trust-anchor row, and what the walk from it covers. */
module Cursor {
  import opened Bytes
  import opened Canonical
  import opened Chain
  import opened ChainSecurity
  import opened ChainTampering
  import opened Encodings
  import opened Text
  import opened Wrappers
  import Json

  const MIN_PREFIX: nat := 8

  predicate IsHexChar(c: char) {
    '0' <= c <= '9' || 'a' <= c <= 'f'
  }

  /** The regular expression `[0-9a-f]{8,}` on the whole text. */
  predicate IsHexPrefix(since: string) {
    |since| >= MIN_PREFIX && forall c :: c in since ==> IsHexChar(c)
  }

  /** `lower(hex(value))`: a value that is no BLOB is taken as the bytes of its text. */
  function StoredHex(c: Cell): string {
    match c
    case SqlNull => ""
    case SqlBlob(b) => Hex(b)
    case SqlText(s) => Hex(Utf8(s))
    case SqlInteger(n) => Hex(Utf8(Json.IntText(n)))
  }

  /** `lower(hex(chain_hash)) GLOB prefix || '*'` for a prefix without wildcards. */
  predicate Hit(r: AuditRow, prefix: string) {
    prefix <= StoredHex(r.chainHash)
  }

  /** `occurred_at < threshold`: numbers sort before text, BLOBs after it, NULL compares as unknown. */
  predicate Before(r: AuditRow, threshold: string) {
    "occurred_at" in r.content &&
    match r.content["occurred_at"]
    case SqlText(s) => Less(s, threshold)
    case SqlInteger(_) => true
    case _ => false
  }

  /** What `resolve_since_cursor` returns or raises. */
  datatype Resolution =
    | Resolved(id: int)
    | NoMatch
    | Ambiguous(first: int, second: int)
    | NothingBefore
    | Malformed(error: Error)

  /** `parse_since` followed by the threshold's ISO form. */
  type Parser = string -> Result<string, Error>

  ghost predicate OnlyHit(table: seq<AuditRow>, prefix: string, k: nat) {
    k < |table| && Hit(table[k], prefix) && forall i :: 0 <= i < |table| && i != k ==> !Hit(table[i], prefix)
  }

  ghost predicate FirstTwoHits(table: seq<AuditRow>, prefix: string, j: nat, k: nat) {
    && j < k < |table| && Hit(table[j], prefix) && Hit(table[k], prefix)
    && forall i :: 0 <= i < k && i != j ==> !Hit(table[i], prefix)
  }

  ghost predicate LatestBefore(table: seq<AuditRow>, threshold: string, k: nat) {
    k < |table| && Before(table[k], threshold) && forall i :: k < i < |table| ==> !Before(table[i], threshold)
  }

  ghost predicate Resolves(table: seq<AuditRow>, since: string, parse: Parser, r: Resolution) {
    if IsHexPrefix(since) then
      match r
      case Resolved(id) => exists k: nat :: OnlyHit(table, since, k) && table[k].id == id
      case NoMatch => forall i :: 0 <= i < |table| ==> !Hit(table[i], since)
      case Ambiguous(a, b) => exists j: nat, k: nat :: FirstTwoHits(table, since, j, k) && table[j].id == a && table[k].id == b
      case _ => false
    else
      match parse(since)
      case Err(e) => r == Malformed(e)
      case Ok(threshold) =>
        match r
        case Resolved(id) => exists k: nat :: LatestBefore(table, threshold, k) && table[k].id == id
        case NothingBefore => forall i :: 0 <= i < |table| ==> !Before(table[i], threshold)
        case _ => false
  }

  function NextHit(table: seq<AuditRow>, prefix: string, from: nat): (at: Option<nat>)
    requires from <= |table|
    ensures at.None? ==> forall i :: from <= i < |table| ==> !Hit(table[i], prefix)
    ensures at.Some? ==> from <= at.value < |table| && Hit(table[at.value], prefix)
    ensures at.Some? ==> forall i :: from <= i < at.value ==> !Hit(table[i], prefix)
    decreases |table| - from
  {
    if from == |table| then None
    else if Hit(table[from], prefix) then Some(from)
    else NextHit(table, prefix, from + 1)
  }

  /** `SELECT id ... WHERE <hit> ORDER BY id ASC LIMIT 2`, as positions. */
  function SelectTwo(table: seq<AuditRow>, prefix: string): (at: seq<nat>)
    ensures |at| == 0 ==> forall i :: 0 <= i < |table| ==> !Hit(table[i], prefix)
    ensures |at| == 1 ==> OnlyHit(table, prefix, at[0])
    ensures |at| >= 2 ==> FirstTwoHits(table, prefix, at[0], at[1])
  {
    match NextHit(table, prefix, 0)
    case None => []
    case Some(i) =>
      match NextHit(table, prefix, i + 1)
      case None => [i]
      case Some(j) => [i, j]
  }

  /** `SELECT id ... WHERE occurred_at < ? ORDER BY id DESC LIMIT 1`, among the first `n` rows. */
  function SelectLatest(table: seq<AuditRow>, threshold: string, n: nat): (at: Option<nat>)
    requires n <= |table|
    ensures at.None? ==> forall i :: 0 <= i < n ==> !Before(table[i], threshold)
    ensures at.Some? ==> at.value < n && Before(table[at.value], threshold)
    ensures at.Some? ==> forall i :: at.value < i < n ==> !Before(table[i], threshold)
  {
    if n == 0 then None
    else if Before(table[n - 1], threshold) then Some(n - 1)
    else SelectLatest(table, threshold, n - 1)
  }

  method ResolveSinceCursor(table: seq<AuditRow>, since: string, parse: Parser) returns (r: Resolution)
    ensures Resolves(table, since, parse, r)
  {
    if IsHexPrefix(since) {
      var matches := SelectTwo(table, since);
      if matches == [] {
        return NoMatch;
      }
      if |matches| > 1 {
        return Ambiguous(table[matches[0]].id, table[matches[1]].id);
      }
      return Resolved(table[matches[0]].id);
    }
    var threshold := parse(since);
    if threshold.Err? {
      return Malformed(threshold.error);
    }
    var latest := SelectLatest(table, threshold.value, |table|);
    if latest.None? {
      return NothingBefore;
    }
    return Resolved(table[latest.value].id);
  }

  /** A prefix resolves iff exactly one row matches it, and then to that row. */
  lemma {:induction false} PrefixResolves(table: seq<AuditRow>, prefix: string, parse: Parser, r: Resolution)
    requires IsHexPrefix(prefix) && Resolves(table, prefix, parse, r)
    ensures r.Resolved? <==> exists k: nat :: OnlyHit(table, prefix, k)
    ensures forall k: nat :: OnlyHit(table, prefix, k) ==> r == Resolved(table[k].id)
  {
  }

  /** A time resolves iff some row precedes it, and then to the last such row. */
  lemma {:induction false} TimeResolves(table: seq<AuditRow>, since: string, parse: Parser, r: Resolution)
    requires !IsHexPrefix(since) && parse(since).Ok? && Resolves(table, since, parse, r)
    ensures r.Resolved? <==> exists i :: 0 <= i < |table| && Before(table[i], parse(since).value)
    ensures forall k: nat :: LatestBefore(table, parse(since).value, k) ==> r == Resolved(table[k].id)
  {
  }

  /** A duration of 1234567 days is never parsed as one: it has the form of a hash prefix. */
  lemma {:induction false} LongDurationIsPrefix(table: seq<AuditRow>, parse: Parser, r: Resolution)
    requires Resolves(table, "1234567d", parse, r)
    ensures IsHexPrefix("1234567d") && !r.Malformed? && !r.NothingBefore?
    ensures forall other: Parser :: Resolves(table, "1234567d", other, r)
  {
  }

  /** Fewer than eight characters, or one that is no lowercase hexadecimal digit: the parser alone says what
      is looked for, and the table is asked for the last earlier row. */
  lemma {:induction false} DecidedByTime(table: seq<AuditRow>, since: string, parse: Parser, r: Resolution)
    requires |since| < 8 || exists i :: 0 <= i < |since| && !('0' <= since[i] <= '9') && !('a' <= since[i] <= 'f')
    requires Resolves(table, since, parse, r)
    ensures match parse(since)
            case Err(e) => r == Malformed(e)
            case Ok(threshold) =>
              || (r == NothingBefore && forall i :: 0 <= i < |table| ==> !Before(table[i], threshold))
              || (exists k: nat :: LatestBefore(table, threshold, k) && r == Resolved(table[k].id))
  {
    if |since| >= 8 {
      var i :| 0 <= i < |since| && !('0' <= since[i] <= '9') && !('a' <= since[i] <= 'f');
      assert since[i] in since && !IsHexChar(since[i]);
    }
    assert !IsHexPrefix(since);
  }

  /** Any other text is looked up among the stored hashes, and no parser has a say. */
  lemma {:induction false} DecidedByHash(table: seq<AuditRow>, since: string, parse: Parser, r: Resolution)
    requires |since| >= 8
    requires forall i :: 0 <= i < |since| ==> '0' <= since[i] <= '9' || 'a' <= since[i] <= 'f'
    requires Resolves(table, since, parse, r)
    ensures || (r == NoMatch && forall i :: 0 <= i < |table| ==> !Hit(table[i], since))
            || (exists k: nat :: OnlyHit(table, since, k) && r == Resolved(table[k].id))
            || (exists j: nat, k: nat :: FirstTwoHits(table, since, j, k) && r == Ambiguous(table[j].id, table[k].id))
    ensures forall other: Parser :: Resolves(table, since, other, r)
  {
    assert IsHexPrefix(since);
  }

  /** The documented form of a week is a duration. */
  lemma {:induction false} WeekIsDuration(table: seq<AuditRow>, parse: Parser, r: Resolution)
    requires Resolves(table, "7d", parse, r)
    ensures !r.NoMatch? && !r.Ambiguous? && (r.Malformed? <==> parse("7d").Err?)
  {
    DecidedByTime(table, "7d", parse, r);
  }

  /** A prefix matches a stored BLOB iff its characters are the leading digits of the bytes. */
  lemma {:induction false} HitMeans(r: AuditRow, prefix: string)
    requires r.chainHash.SqlBlob?
    ensures var b := r.chainHash.b;
            Hit(r, prefix) <==>
            |prefix| <= 2 * |b|
            && forall i :: 0 <= i < |prefix| ==> IsNibble(prefix[i], if i % 2 == 0 then b[i / 2] / 16 else b[i / 2] % 16)
  {
    var b := r.chainHash.b;
    forall i | 0 <= i < |Hex(b)|
      ensures IsNibble(Hex(b)[i], if i % 2 == 0 then b[i / 2] / 16 else b[i / 2] % 16)
    {
      HexAt(b, i / 2);
    }
  }

  /** A value of another type is matched by the digits of its text. */
  lemma {:induction false} HitsOtherwise(prefix: string)
    ensures StoredHex(SqlNull) == "" && StoredHex(SqlText("ab")) == "6162" && StoredHex(SqlInteger(12)) == "3132"
  {
    assert Json.NatText(12) == Json.NatText(1) + "2";
  }

  /** Text precedes a later text, numbers precede every text, BLOBs and NULL precede none. */
  lemma {:induction false} BeforeMeans(r: AuditRow, threshold: string)
    ensures Before(r, threshold) ==> "occurred_at" in r.content
    ensures "occurred_at" in r.content ==>
              var c := r.content["occurred_at"];
              Before(r, threshold) <==> c.SqlInteger? || (c.SqlText? && Less(c.s, threshold))
  {
  }

  // ---------------------------------------------------------------------------
  // What a since-walk covers
  // ---------------------------------------------------------------------------

  /** The rows the walk from a time cursor verifies: none of them precedes the threshold. */
  lemma {:induction false} CoveredRows(table: seq<AuditRow>, since: string, parse: Parser, id: int)
    requires ValidTable(table) && !IsHexPrefix(since) && parse(since).Ok?
    requires Resolves(table, since, parse, Resolved(id))
    ensures var walked := After(table, id);
            && |walked| < |table| && walked == table[|table| - |walked|..]
            && table[|table| - |walked| - 1].id == id
            && LatestBefore(table, parse(since).value, |table| - |walked| - 1)
            && forall i :: 0 <= i < |walked| ==> !Before(walked[i], parse(since).value)
  {
    var k: nat :| LatestBefore(table, parse(since).value, k) && table[k].id == id;
    AfterIsSuffix(table, k);
  }

  /** The walk behind `k` covers exactly the rows that do not precede the threshold. */
  ghost predicate CoversExactly(table: seq<AuditRow>, threshold: string, k: nat) {
    forall i :: 0 <= i < |table| ==> (i > k <==> !Before(table[i], threshold))
  }

  function OccurredAt(r: AuditRow): string {
    if "occurred_at" in r.content && r.content["occurred_at"].SqlText? then r.content["occurred_at"].s else ""
  }

  /** Every timestamp is text, as the NOT NULL text column stores it. */
  predicate Timed(table: seq<AuditRow>) {
    forall i :: 0 <= i < |table| ==> "occurred_at" in table[i].content && table[i].content["occurred_at"].SqlText?
  }

  predicate InTimeOrder(table: seq<AuditRow>) {
    forall i, j :: 0 <= i < j < |table| ==> !Less(OccurredAt(table[j]), OccurredAt(table[i]))
  }

  lemma {:induction false} OrderedCovers(table: seq<AuditRow>, threshold: string, k: nat)
    requires Timed(table) && InTimeOrder(table) && LatestBefore(table, threshold, k)
    ensures CoversExactly(table, threshold, k)
  {
    forall i | 0 <= i < k ensures Before(table[i], threshold) {
      var a, b := OccurredAt(table[i]), OccurredAt(table[k]);
      LessTotal(a, b);
      if a != b { LessTransitive(a, b, threshold); }
    }
  }

  lemma {:induction false} LatestExists(table: seq<AuditRow>, threshold: string, j: nat)
    requires j < |table| && Before(table[j], threshold)
    ensures exists k: nat :: LatestBefore(table, threshold, k) && k >= j
  {
    var at := SelectLatest(table, threshold, |table|);
    assert at.Some? && LatestBefore(table, threshold, at.value);
  }

  /** A pair of rows out of time order defeats the walk from the earlier row's own timestamp: that row
      is at the threshold, yet lies before the cursor and is not verified. */
  lemma {:induction false} InversionEscapes(table: seq<AuditRow>, i: nat, j: nat)
    requires Timed(table) && i < j < |table| && Less(OccurredAt(table[j]), OccurredAt(table[i]))
    ensures exists k: nat :: LatestBefore(table, OccurredAt(table[i]), k) && i < k && !Before(table[i], OccurredAt(table[i]))
  {
    var threshold := OccurredAt(table[i]);
    LatestExists(table, threshold, j);
    LessIrreflexive(threshold);
  }

  /** Since-walks cover exactly the rows at or after their threshold, whatever the threshold, iff
      timestamps never decrease with the id. */
  lemma {:induction false} CoverageIff(table: seq<AuditRow>)
    requires Timed(table)
    ensures (forall threshold: string, k: nat :: LatestBefore(table, threshold, k) ==> CoversExactly(table, threshold, k))
            <==> InTimeOrder(table)
  {
    if InTimeOrder(table) {
      forall threshold: string, k: nat | LatestBefore(table, threshold, k) ensures CoversExactly(table, threshold, k) {
        OrderedCovers(table, threshold, k);
      }
    } else {
      var i: nat, j: nat :| i < j < |table| && Less(OccurredAt(table[j]), OccurredAt(table[i]));
      InversionEscapes(table, i, j);
      var k: nat :| LatestBefore(table, OccurredAt(table[i]), k) && i < k && !Before(table[i], OccurredAt(table[i]));
      assert !CoversExactly(table, OccurredAt(table[i]), k);
    }
  }

  // ---------------------------------------------------------------------------
  // A pasted hash
  // ---------------------------------------------------------------------------

  lemma {:induction false} HexIsHexPrefix(b: Bytes)
    ensures |Hex(b)| == 2 * |b| && forall c :: c in Hex(b) ==> IsHexChar(c)
  {
    if b != [] { HexIsHexPrefix(b[1..]); }
  }

  lemma {:induction false} PrefixOfSameWidth(a: Bytes, b: Bytes)
    requires |a| == |b|
    ensures Hex(a) <= Hex(b) <==> a == b
  {
    HexIsHexPrefix(a);
    HexIsHexPrefix(b);
    if Hex(a) <= Hex(b) {
      assert Hex(a) == Hex(b);
      HexRoundTrip(a);
      HexRoundTrip(b);
    }
  }

  /** What was hashed into the stored hash of row `i` of a clean log. */
  function LinkPreimage(rows: seq<AuditRow>, i: nat): Bytes
    requires i < |rows|
  {
    LastHash(GENESIS_CHAIN_HASH, rows[..i]) + Content(rows[i])
  }

  /** Searches the rows for another one that matches, and pairs the two preimages. */
  function TwinEvidence(H: HashFunction, table: seq<AuditRow>, k: nat, i: nat): Evidence
    requires k < |table| && i <= |table|
    decreases |table| - i, H
  {
    if i == |table| then NoEvidence
    else if i != k && Hit(table[i], Hex(StoredHash(table[k]))) then
      Collision(LinkPreimage(table, k), LinkPreimage(table, i))
    else TwinEvidence(H, table, k, i + 1)
  }

  /** In a clean log two rows with one hash give away a collision. */
  lemma {:induction false} TwinsCollide(H: HashFunction, table: seq<AuditRow>, k: nat, i: nat)
    requires ValidTable(table) && Clean(H, GENESIS_CHAIN_HASH, table)
    requires k < |table| && i < |table| && i != k && StoredHash(table[i]) == StoredHash(table[k])
    ensures Breaks(H, Collision(LinkPreimage(table, k), LinkPreimage(table, i)))
  {
    var g := GENESIS_CHAIN_HASH;
    CleanAt(H, g, table, k);
    CleanAt(H, g, table, i);
    var a, b := LastHash(g, table[..k]), LastHash(g, table[..i]);
    PassMeans(H, a, table[k]);
    PassMeans(H, b, table[i]);
    if a + Content(table[k]) == b + Content(table[i]) {
      SplitPrefix(a, Content(table[k]), b, Content(table[i]));
      ContentBinds(table[k], table[i]);
    }
  }

  /** The BLOB every writer binds to `chain_hash`. */
  predicate HashIsBlob(r: AuditRow) {
    r.chainHash.SqlBlob?
  }

  predicate HashesAreDigests(table: seq<AuditRow>) {
    forall j :: 0 <= j < |table| ==> HashIsBlob(table[j]) && |StoredHash(table[j])| == DIGEST_SIZE
  }

  lemma {:induction false} CleanHashesAreDigests(H: HashFunction, table: seq<AuditRow>)
    requires Clean(H, GENESIS_CHAIN_HASH, table)
    requires forall j :: 0 <= j < |table| ==> HashIsBlob(table[j])
    ensures HashesAreDigests(table)
  {
    forall j | 0 <= j < |table| ensures |StoredHash(table[j])| == DIGEST_SIZE {
      CleanAt(H, GENESIS_CHAIN_HASH, table, j);
      PassMeans(H, LastHash(GENESIS_CHAIN_HASH, table[..j]), table[j]);
    }
  }

  lemma {:induction false} HitIsEqual(r: AuditRow, h: Digest)
    requires HashIsBlob(r) && |StoredHash(r)| == DIGEST_SIZE
    ensures Hit(r, Hex(h)) <==> StoredHash(r) == h
  {
    PrefixOfSameWidth(h, StoredHash(r));
  }

  lemma {:induction false} TwinFound(H: HashFunction, table: seq<AuditRow>, k: nat, i: nat)
    requires ValidTable(table) && Clean(H, GENESIS_CHAIN_HASH, table) && k < |table| && i <= |table|
    requires HashesAreDigests(table)
    ensures Breaks(H, TwinEvidence(H, table, k, i)) ||
            forall j :: i <= j < |table| && j != k ==> !Hit(table[j], Hex(StoredHash(table[k])))
    decreases |table| - i
  {
    if i < |table| {
      if i != k && Hit(table[i], Hex(StoredHash(table[k]))) {
        HitIsEqual(table[i], StoredHash(table[k]));
        TwinsCollide(H, table, k, i);
      } else {
        TwinFound(H, table, k, i + 1);
      }
    }
  }

  /** The full hash of a row of a clean log, pasted back, resolves to that row. */
  lemma {:induction false} PastedHashResolves(H: HashFunction, table: seq<AuditRow>, k: nat, parse: Parser, r: Resolution)
    requires ValidTable(table) && Clean(H, GENESIS_CHAIN_HASH, table) && k < |table|
    requires forall j :: 0 <= j < |table| ==> HashIsBlob(table[j])
    requires Resolves(table, Hex(StoredHash(table[k])), parse, r)
    ensures r == Resolved(table[k].id) || Breaks(H, TwinEvidence(H, table, k, 0))
  {
    var prefix := Hex(StoredHash(table[k]));
    CleanHashesAreDigests(H, table);
    HitIsEqual(table[k], StoredHash(table[k]));
    HexIsHexPrefix(StoredHash(table[k]));
    TwinFound(H, table, k, 0);
    PrefixResolves(table, prefix, parse, r);
    if !Breaks(H, TwinEvidence(H, table, k, 0)) {
      assert OnlyHit(table, prefix, k);
    }
  }
}
