/** The per-call fingerprint: a hash of a sorted JSON object of six members. */
module Fingerprint {
  import opened Bytes
  import opened Encodings
  import opened JsonForm
  import opened Text
  import opened Wrappers
  import Json

  const FINGERPRINT_VERSION: string := "fp-v1"

  datatype FingerprintInput = FingerprintInput(
    astShapeHash: Option<Bytes>,
    piiTagsTouched: set<string>,
    refusalReason: Option<string>,
    costClass: string,
    ruleId: Option<string>)

  function Nullable(s: Option<string>): Json.Value {
    match s case None => Json.Null case Some(t) => Json.String(t)
  }

  function AstText(b: Option<Bytes>): Json.Value {
    match b case None => Json.Null case Some(h) => Json.String(Hex(h))
  }

  /** The dict handed to `json.dumps`, for one enumeration of the tags. */
  function Members(i: FingerprintInput, tags: seq<string>): Json.Object {
    map["v" := Json.String(FINGERPRINT_VERSION),
        "ast" := AstText(i.astShapeHash),
        "pii" := Json.Strings(tags),
        "reason" := Nullable(i.refusalReason),
        "cost" := Json.String(i.costClass),
        "rule" := Nullable(i.ruleId)]
  }

  function Preimage(i: FingerprintInput): Bytes {
    Json.Dumps(Members(i, Sorted(i.piiTagsTouched)), true)
  }

  function ComputeFingerprint(H: HashFunction, i: FingerprintInput): Digest {
    H(Preimage(i))
  }

  /** What a reader of the hashed bytes finds: six members under their names. */
  lemma {:induction false} PreimageReads(i: FingerprintInput)
    ensures var m := Json.Loads(Preimage(i));
            && m.Some?
            && m.value.Keys == {"v", "ast", "pii", "reason", "cost", "rule"}
            && m.value["v"] == Json.String("fp-v1")
            && m.value["ast"] == (if i.astShapeHash.None? then Json.Null else Json.String(Hex(i.astShapeHash.value)))
            && m.value["reason"] == (if i.refusalReason.None? then Json.Null else Json.String(i.refusalReason.value))
            && m.value["cost"] == Json.String(i.costClass)
            && m.value["rule"] == (if i.ruleId.None? then Json.Null else Json.String(i.ruleId.value))
            && m.value["pii"].Strings?
            && StrictlySorted(m.value["pii"].items) && Elements(m.value["pii"].items) == i.piiTagsTouched
  {
    Json.RoundTrip(Members(i, Sorted(i.piiTagsTouched)), true);
    SortedIsSorted(i.piiTagsTouched);
  }

  /** And the bytes are the one printed form of these members, everything from DEL up escaped. */
  lemma {:induction false} PreimageForm(i: FingerprintInput)
    ensures IsDump(Preimage(i), true)
  {
    DumpReads(Preimage(i), Members(i, Sorted(i.piiTagsTouched)), true);
  }

  lemma {:induction false} MembersBind(i: FingerprintInput, j: FingerprintInput, xs: seq<string>, ys: seq<string>)
    requires Members(i, xs) == Members(j, ys)
    ensures AstText(i.astShapeHash) == AstText(j.astShapeHash) && xs == ys
    ensures i.refusalReason == j.refusalReason && i.costClass == j.costClass && i.ruleId == j.ruleId
  {
    var m, n := Members(i, xs), Members(j, ys);
    assert m["ast"] == n["ast"] && m["pii"] == n["pii"] && m["reason"] == n["reason"];
    assert m["cost"] == n["cost"] && m["rule"] == n["rule"];
  }

  lemma {:induction false} AstTextBinds(a: Option<Bytes>, b: Option<Bytes>)
    requires AstText(a) == AstText(b)
    ensures a == b
  {
    if a.Some? && b.Some? {
      HexRoundTrip(a.value);
      HexRoundTrip(b.value);
    }
  }

  /** Equal preimages are equal inputs: the set of tags, absent against present text, all of it. */
  lemma {:induction false} PreimageInjective(i: FingerprintInput, j: FingerprintInput)
    requires Preimage(i) == Preimage(j)
    ensures i == j
  {
    Json.DumpsInjective(Members(i, Sorted(i.piiTagsTouched)), Members(j, Sorted(j.piiTagsTouched)), true);
    MembersBind(i, j, Sorted(i.piiTagsTouched), Sorted(j.piiTagsTouched));
    AstTextBinds(i.astShapeHash, j.astShapeHash);
    SortedIsSorted(i.piiTagsTouched);
    SortedIsSorted(j.piiTagsTouched);
  }

  /** Different inputs with one fingerprint give away a collision. */
  lemma {:induction false} FingerprintBinding(H: HashFunction, i: FingerprintInput, j: FingerprintInput)
    requires ComputeFingerprint(H, i) == ComputeFingerprint(H, j)
    ensures i == j || Breaks(H, Collision(Preimage(i), Preimage(j)))
  {
    if Preimage(i) == Preimage(j) { PreimageInjective(i, j); }
  }

  /** Whatever order a deployment enumerates the tags in, sorting them gives the same preimage. */
  lemma {:induction false} OrderIrrelevant(i: FingerprintInput, tags: seq<string>)
    requires StrictlySorted(tags) && Elements(tags) == i.piiTagsTouched
    ensures Json.Dumps(Members(i, tags), true) == Preimage(i)
  {
    SortedUnique(tags, i.piiTagsTouched);
  }
}
