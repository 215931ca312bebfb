/** What the Merkle root commits to.  Nothing here assumes the hash is injective:
    where binding could fail, a compiled extractor computes the colliding pair. */
module MerkleSecurity {
  import opened Bytes
  import opened Wrappers
  import opened Merkle

  // ---------------------------------------------------------------------------
  // Shape: the accepted path length depends on index and size alone
  // ---------------------------------------------------------------------------

  /** A path folds exactly when it is as long as the genuine path of that leaf. */
  lemma {:induction false} FoldShape(H: HashFunction, m: nat, hashes: seq<Bytes>, leaf: Bytes, path: seq<Bytes>)
    requires m < |hashes|
    ensures Fold(H, m, |hashes|, leaf, path).Some? <==> |path| == |AuditPath(H, m, hashes)|
    decreases |path|
  {
    if |hashes| > 1 && path != [] {
      var k, rest := LargestPowerOfTwoBelow(|hashes|), path[..|path| - 1];
      if m < k { FoldShape(H, m, hashes[..k], leaf, rest); } else { FoldShape(H, m - k, hashes[k..], leaf, rest); }
    }
  }

  /** The least `r >= b` with `n < 2^r`. */
  function LeastExponent(n: nat, b: nat): (r: nat)
    ensures b <= r && n < Pow2(r) && (b < r ==> Pow2(r - 1) <= n)
    decreases n - Pow2(b)
  {
    if n < Pow2(b) then b else LeastExponent(n, b + 1)
  }

  /** Python's `int.bit_length` on naturals. */
  function BitLength(n: nat): nat {
    LeastExponent(n, 0)
  }

  /** `1 << ((n - 1).bit_length() - 1)` is the split point. */
  lemma {:induction false} SplitByBitLength(n: nat)
    requires n >= 2
    ensures BitLength(n - 1) >= 1
    ensures LargestPowerOfTwoBelow(n) == Pow2(BitLength(n - 1) - 1)
  {
    var d, b := SplitExponent(n), BitLength(n - 1);
    assert Pow2(0) == 1;
    assert Pow2(d + 1) == 2 * Pow2(d) && Pow2(b) == 2 * Pow2(b - 1);
    if d + 1 < b { Pow2Monotone(d + 1, b - 1); }
    if b < d + 1 { Pow2Monotone(b, d); }
  }

  lemma {:induction false} SplitFits(n: nat, b: nat)
    requires 2 <= n <= Pow2(b)
    ensures b > 0 && LargestPowerOfTwoBelow(n) <= Pow2(b - 1)
  {
    var d := SplitExponent(n);
    if d >= b {
      Pow2Monotone(b, d);
    } else {
      Pow2Monotone(d, b - 1);
    }
  }

  lemma {:induction false} PathBound(H: HashFunction, m: nat, hashes: seq<Bytes>, b: nat)
    requires m < |hashes| <= Pow2(b)
    ensures |AuditPath(H, m, hashes)| <= b
    decreases |hashes|
  {
    if |hashes| > 1 {
      var k := LargestPowerOfTwoBelow(|hashes|);
      SplitFits(|hashes|, b);
      if m < k { PathBound(H, m, hashes[..k], b - 1); } else { PathBound(H, m - k, hashes[k..], b - 1); }
    }
  }

  /** Acceptance fixes the path length before any hash is looked at: it is that of the genuine
      proof for this index in any log of this size, at most the bit length of `n - 1`. */
  lemma {:induction false} AcceptanceShape(H: HashFunction, i: int, n: int, leaf: Bytes, path: seq<Bytes>, root: Bytes)
    requires Verifies(H, i, n, leaf, path, root)
    ensures |path| <= BitLength(n - 1)
    ensures forall leaves: seq<Bytes> | |leaves| == n :: |path| == |InclusionProof(H, i, leaves).value|
  {
    forall leaves: seq<Bytes> | |leaves| == n
      ensures |path| == |InclusionProof(H, i, leaves).value| <= BitLength(n - 1)
    {
      FoldShape(H, i, LeafHashes(H, leaves), leaf, path);
      PathBound(H, i, LeafHashes(H, leaves), BitLength(n - 1));
    }
    var blank: seq<Bytes> := seq(n, _ => []);
    assert |path| == |InclusionProof(H, i, blank).value|;
  }

  /** Conversely a path of that length always folds: the verdict is then one comparison. */
  lemma {:induction false} WrongRootOnly(H: HashFunction, i: nat, leaves: seq<Bytes>, leaf: Bytes, path: seq<Bytes>)
    requires i < |leaves|
    ensures (exists root :: Verifies(H, i, |leaves|, leaf, path, root))
       <==> |path| == |InclusionProof(H, i, leaves).value|
  {
    FoldShape(H, i, LeafHashes(H, leaves), leaf, path);
    if |path| == |InclusionProof(H, i, leaves).value| {
      assert Verifies(H, i, |leaves|, leaf, path, Fold(H, i, |leaves|, leaf, path).value);
    }
  }

  // ---------------------------------------------------------------------------
  // Completeness
  // ---------------------------------------------------------------------------

  lemma {:induction false} FoldSnoc(H: HashFunction, m: nat, n: nat, leaf: Bytes, rest: seq<Bytes>, sibling: Bytes)
    requires m < n && n > 1
    ensures var k := LargestPowerOfTwoBelow(n);
            Fold(H, m, n, leaf, rest + [sibling])
            == if m < k then OnLeft(H, Fold(H, m, k, leaf, rest), sibling)
               else OnRight(H, Fold(H, m - k, n - k, leaf, rest), sibling)
  {
    var path := rest + [sibling];
    assert path[..|path| - 1] == rest;
  }

  /** The hash that the splits lead index `m` to. */
  ghost function HashAt(H: HashFunction, m: nat, hashes: seq<Bytes>): Bytes
    requires m < |hashes|
    decreases |hashes|, H
  {
    if |hashes| == 1 then hashes[0]
    else
      var k := LargestPowerOfTwoBelow(|hashes|);
      if m < k then HashAt(H, m, hashes[..k]) else HashAt(H, m - k, hashes[k..])
  }

  lemma {:induction false} HashAtIndex(H: HashFunction, m: nat, hashes: seq<Bytes>)
    requires m < |hashes|
    ensures HashAt(H, m, hashes) == hashes[m]
    decreases |hashes|
  {
    if |hashes| > 1 {
      var k := LargestPowerOfTwoBelow(|hashes|);
      if m < k { HashAtIndex(H, m, hashes[..k]); } else { HashAtIndex(H, m - k, hashes[k..]); }
    }
  }

  /** The genuine path folds to the root. */
  ghost predicate Genuine(H: HashFunction, m: nat, hashes: seq<Bytes>)
    requires m < |hashes|
  {
    Fold(H, m, |hashes|, HashAt(H, m, hashes), AuditPath(H, m, hashes)) == Some(RootFromLeafHashes(H, hashes))
  }

  lemma {:induction false} GenuineFromLeft(H: HashFunction, m: nat, hashes: seq<Bytes>)
    requires |hashes| > 1 && m < LargestPowerOfTwoBelow(|hashes|)
    requires Genuine(H, m, hashes[..LargestPowerOfTwoBelow(|hashes|)])
    ensures Genuine(H, m, hashes)
  {
    var left, right := hashes[..LargestPowerOfTwoBelow(|hashes|)], hashes[LargestPowerOfTwoBelow(|hashes|)..];
    FoldSnoc(H, m, |hashes|, HashAt(H, m, left), AuditPath(H, m, left), RootFromLeafHashes(H, right));
  }

  lemma {:induction false} GenuineFromRight(H: HashFunction, m: nat, hashes: seq<Bytes>)
    requires |hashes| > 1 && LargestPowerOfTwoBelow(|hashes|) <= m < |hashes|
    requires Genuine(H, m - LargestPowerOfTwoBelow(|hashes|), hashes[LargestPowerOfTwoBelow(|hashes|)..])
    ensures Genuine(H, m, hashes)
  {
    var left, right := hashes[..LargestPowerOfTwoBelow(|hashes|)], hashes[LargestPowerOfTwoBelow(|hashes|)..];
    var i := m - |left|;
    FoldSnoc(H, m, |hashes|, HashAt(H, i, right), AuditPath(H, i, right), RootFromLeafHashes(H, left));
  }

  lemma {:induction false} GenuineSplit(H: HashFunction, m: nat, hashes: seq<Bytes>)
    requires m < |hashes| && |hashes| > 1
    requires forall hs: seq<Bytes>, i: nat {:trigger Genuine(H, i, hs)} | i < |hs| < |hashes| :: Genuine(H, i, hs)
    ensures Genuine(H, m, hashes)
  {
    if m < LargestPowerOfTwoBelow(|hashes|) {
      GenuineFromLeft(H, m, hashes);
    } else {
      GenuineFromRight(H, m, hashes);
    }
  }

  lemma {:induction false} PathAtEnd(H: HashFunction, hashes: seq<Bytes>)
    requires |hashes| == 1
    ensures Fold(H, 0, 1, hashes[0], AuditPath(H, 0, hashes)) == Some(RootFromLeafHashes(H, hashes))
  {
  }

  lemma {:induction false} AllGenuine(H: HashFunction, n: nat)
    ensures forall hs: seq<Bytes>, i: nat {:trigger Genuine(H, i, hs)} | i < |hs| <= n :: Genuine(H, i, hs)
  {
    if n > 0 {
      AllGenuine(H, n - 1);
      forall hs: seq<Bytes>, i: nat {:trigger Genuine(H, i, hs)} | i < |hs| == n ensures Genuine(H, i, hs) {
        if n == 1 { PathAtEnd(H, hs); } else { GenuineSplit(H, i, hs); }
      }
    }
  }

  /** Every genuine proof verifies, for every log and every index. */
  lemma {:induction false} Completeness(H: HashFunction, leaves: seq<Bytes>, i: nat)
    requires i < |leaves|
    ensures Verifies(H, i, |leaves|, LeafHash(H, leaves[i]), InclusionProof(H, i, leaves).value, MerkleRoot(H, leaves))
  {
    AllGenuine(H, |leaves|);
    assert Genuine(H, i, LeafHashes(H, leaves));
    HashAtIndex(H, i, LeafHashes(H, leaves));
  }

  // ---------------------------------------------------------------------------
  // Soundness: two accepted proofs agree, or they contain a collision
  // ---------------------------------------------------------------------------

  function SubIndex(m: nat, n: nat): nat
    requires m < n && n > 1
  {
    var k := LargestPowerOfTwoBelow(n); if m < k then m else m - k
  }

  /** The subtree and the index in it that the top of a proof for leaf `m` of `n` points to. */
  function SubSize(m: nat, n: nat): (k: nat)
    requires m < n && n > 1
    ensures SubIndex(m, n) < k
  {
    var k := LargestPowerOfTwoBelow(n); if m < k then k else n - k
  }

  /** The preimage of the node that an accepted proof puts at the root. */
  function TopPreimage(H: HashFunction, m: nat, n: nat, leaf: Bytes, path: seq<Bytes>): (x: Bytes)
    requires m < n && n > 1 && Fold(H, m, n, leaf, path).Some?
    ensures Fold(H, m, n, leaf, path).value == H(x)
  {
    var sibling, rest := path[|path| - 1], path[..|path| - 1];
    var child := Fold(H, SubIndex(m, n), SubSize(m, n), leaf, rest).value;
    if m < LargestPowerOfTwoBelow(n) then NODE_PREFIX + child + sibling else NODE_PREFIX + sibling + child
  }

  /** Walks two accepted proofs from the root down to where their node preimages part. */
  function ProofCollision(H: HashFunction, m: nat, n: nat,
                          leaf1: Bytes, path1: seq<Bytes>, leaf2: Bytes, path2: seq<Bytes>): Evidence
    requires m < n
    requires Fold(H, m, n, leaf1, path1).Some? && Fold(H, m, n, leaf2, path2).Some?
    decreases |path1|, H
  {
    if n == 1 then NoEvidence
    else
      var here := Compare(TopPreimage(H, m, n, leaf1, path1), TopPreimage(H, m, n, leaf2, path2));
      if here != NoEvidence then here
      else ProofCollision(H, SubIndex(m, n), SubSize(m, n), leaf1, path1[..|path1| - 1], leaf2, path2[..|path2| - 1])
  }

  /** Everything the walk holds is a digest, provided it starts from one. */
  lemma {:induction path} FoldIsDigest(H: HashFunction, m: nat, n: nat, leaf: Bytes, path: seq<Bytes>)
    requires m < n && |leaf| == DIGEST_SIZE && Fold(H, m, n, leaf, path).Some?
    ensures |Fold(H, m, n, leaf, path).value| == DIGEST_SIZE
  {
  }

  /** Equal node preimages whose left (or right) halves have equal length have equal halves. */
  lemma {:induction false} NodePreimages(a: Bytes, b: Bytes, c: Bytes, d: Bytes)
    requires NODE_PREFIX + a + b == NODE_PREFIX + c + d
    requires |a| == |c| || |b| == |d|
    ensures a == c && b == d
  {
    var x, y := NODE_PREFIX + a + b, NODE_PREFIX + c + d;
    assert x == NODE_PREFIX + (a + b) && y == NODE_PREFIX + (c + d);
    SplitPrefix(NODE_PREFIX, a + b, NODE_PREFIX, c + d);
    assert |a + b| == |c + d|;
    SplitPrefix(a, b, c, d);
  }

  /** Equal top preimages have equal children and equal siblings. */
  lemma {:induction false} TopPreimages(H: HashFunction, m: nat, n: nat, leaf1: Bytes, path1: seq<Bytes>, leaf2: Bytes, path2: seq<Bytes>)
    requires m < n && n > 1 && |leaf1| == |leaf2| == DIGEST_SIZE
    requires Fold(H, m, n, leaf1, path1).Some? && Fold(H, m, n, leaf2, path2).Some?
    requires TopPreimage(H, m, n, leaf1, path1) == TopPreimage(H, m, n, leaf2, path2)
    ensures path1[|path1| - 1] == path2[|path2| - 1]
    ensures Fold(H, SubIndex(m, n), SubSize(m, n), leaf1, path1[..|path1| - 1])
         == Fold(H, SubIndex(m, n), SubSize(m, n), leaf2, path2[..|path2| - 1])
  {
    var s1, s2 := path1[|path1| - 1], path2[|path2| - 1];
    var rest1, rest2 := path1[..|path1| - 1], path2[..|path2| - 1];
    var i, k := SubIndex(m, n), SubSize(m, n);
    FoldIsDigest(H, i, k, leaf1, rest1);
    FoldIsDigest(H, i, k, leaf2, rest2);
    var c1, c2 := Fold(H, i, k, leaf1, rest1).value, Fold(H, i, k, leaf2, rest2).value;
    if m < LargestPowerOfTwoBelow(n) { NodePreimages(c1, s1, c2, s2); } else { NodePreimages(s1, c1, s2, c2); }
  }

  lemma {:induction false} FoldBinding(H: HashFunction, m: nat, n: nat,
                                       leaf1: Bytes, path1: seq<Bytes>, leaf2: Bytes, path2: seq<Bytes>)
    requires m < n && |leaf1| == |leaf2| == DIGEST_SIZE
    requires Fold(H, m, n, leaf1, path1).Some?
    requires Fold(H, m, n, leaf1, path1) == Fold(H, m, n, leaf2, path2)
    ensures var e := ProofCollision(H, m, n, leaf1, path1, leaf2, path2);
            if e == NoEvidence then leaf1 == leaf2 && path1 == path2 else Breaks(H, e)
    decreases |path1|
  {
    if n > 1 {
      var x1, x2 := TopPreimage(H, m, n, leaf1, path1), TopPreimage(H, m, n, leaf2, path2);
      if x1 == x2 {
        TopPreimages(H, m, n, leaf1, path1, leaf2, path2);
        var rest1, rest2 := path1[..|path1| - 1], path2[..|path2| - 1];
        assert path1 == rest1 + [path1[|path1| - 1]] && path2 == rest2 + [path2[|path2| - 1]];
        FoldBinding(H, SubIndex(m, n), SubSize(m, n), leaf1, rest1, leaf2, rest2);
      }
    }
  }

  function TwoProofsEvidence(H: HashFunction, i: int, n: int, leaf1: Bytes, path1: seq<Bytes>,
                             leaf2: Bytes, path2: seq<Bytes>, root: Bytes): Evidence
    requires Verifies(H, i, n, leaf1, path1, root) && Verifies(H, i, n, leaf2, path2, root)
  {
    ProofCollision(H, i, n, leaf1, path1, leaf2, path2)
  }

  /** Two accepted proofs with 32-byte leaf values for one index, size and root, trusted or not,
      have the same leaf value and the same path, or the extractor computes a collision. */
  lemma {:induction false} TwoProofs(H: HashFunction, i: int, n: int, leaf1: Bytes, path1: seq<Bytes>,
                  leaf2: Bytes, path2: seq<Bytes>, root: Bytes)
    requires |leaf1| == |leaf2| == DIGEST_SIZE
    requires Verifies(H, i, n, leaf1, path1, root) && Verifies(H, i, n, leaf2, path2, root)
    ensures var e := TwoProofsEvidence(H, i, n, leaf1, path1, leaf2, path2, root);
            if e == NoEvidence then leaf1 == leaf2 && path1 == path2 else Breaks(H, e)
  {
    FoldBinding(H, i, n, leaf1, path1, leaf2, path2);
  }

  function SoundnessEvidence(H: HashFunction, leaves: seq<Bytes>, i: int, leaf: Bytes, path: seq<Bytes>): Evidence
    requires Verifies(H, i, |leaves|, leaf, path, MerkleRoot(H, leaves))
  {
    Completeness(H, leaves, i);
    TwoProofsEvidence(H, i, |leaves|, leaf, path, LeafHash(H, leaves[i]), InclusionProof(H, i, leaves).value,
                      MerkleRoot(H, leaves))
  }

  /** Soundness against a root built by `merkle_root`: an accepted 32-byte leaf value is the
      genuine one with the genuine path, or a collision is extracted. */
  lemma {:induction false} Soundness(H: HashFunction, leaves: seq<Bytes>, i: int, leaf: Bytes, path: seq<Bytes>)
    requires |leaf| == DIGEST_SIZE
    requires Verifies(H, i, |leaves|, leaf, path, MerkleRoot(H, leaves))
    ensures var e := SoundnessEvidence(H, leaves, i, leaf, path);
            if e == NoEvidence then leaf == LeafHash(H, leaves[i]) && Some(path) == InclusionProof(H, i, leaves)
            else Breaks(H, e)
  {
    Completeness(H, leaves, i);
    TwoProofs(H, i, |leaves|, leaf, path, LeafHash(H, leaves[i]), InclusionProof(H, i, leaves).value,
              MerkleRoot(H, leaves));
  }

  /** Nothing but its width decides: an accepted leaf value is the genuine one iff it is 32 bytes wide. */
  lemma {:induction false} SoundIffDigest(H: HashFunction, leaves: seq<Bytes>, i: int, leaf: Bytes, path: seq<Bytes>)
    requires Verifies(H, i, |leaves|, leaf, path, MerkleRoot(H, leaves))
    ensures (leaf == LeafHash(H, leaves[i]) <==> |leaf| == DIGEST_SIZE) || Breaks(H, SoundnessEvidence(H, leaves, i, leaf, path))
  {
    if |leaf| == DIGEST_SIZE {
      Soundness(H, leaves, i, leaf, path);
    }
  }

  /** With the true size claimed, an accepted row is the one at the claimed index. */
  function PositionEvidence(H: HashFunction, leaves: seq<Bytes>, i: int, row: Bytes, path: seq<Bytes>): Evidence
    requires Verifies(H, i, |leaves|, LeafHash(H, row), path, MerkleRoot(H, leaves))
  {
    var e := SoundnessEvidence(H, leaves, i, LeafHash(H, row), path);
    if e != NoEvidence then e else Compare(LEAF_PREFIX + row, LEAF_PREFIX + leaves[i])
  }

  lemma {:induction false} Position(H: HashFunction, leaves: seq<Bytes>, i: int, row: Bytes, path: seq<Bytes>)
    requires Verifies(H, i, |leaves|, LeafHash(H, row), path, MerkleRoot(H, leaves))
    ensures var e := PositionEvidence(H, leaves, i, row, path);
            if e == NoEvidence then row == leaves[i] else Breaks(H, e)
  {
    Soundness(H, leaves, i, LeafHash(H, row), path);
    if PositionEvidence(H, leaves, i, row, path) == NoEvidence {
      SplitPrefix(LEAF_PREFIX, row, LEAF_PREFIX, leaves[i]);
    }
  }

  // ---------------------------------------------------------------------------
  // The 32-byte leaf is needed: the verifier does not check widths
  // ---------------------------------------------------------------------------

  /** Two nodes with the same preimage, cut at different places. */
  lemma {:induction false} Recut(H: HashFunction, a: Bytes, b: Bytes, c: Bytes, d: Bytes)
    requires a + b == c + d
    ensures NodeHash(H, a, b) == NodeHash(H, c, d)
  {
    assert NODE_PREFIX + a + b == NODE_PREFIX + (a + b) == NODE_PREFIX + (c + d) == NODE_PREFIX + c + d;
  }

  /** Re-cutting the first node of an accepted walk gives an accepted leaf value of any width
      that the node preimage has room for. */
  lemma {:induction false} RecutFold(H: HashFunction, m: nat, n: nat, leaf: Bytes, path: seq<Bytes>, width: nat)
    returns (leaf': Bytes, first: Bytes)
    requires m < n && n > 1 && path != [] && width <= |leaf| + |path[0]|
    requires Fold(H, m, n, leaf, path).Some?
    ensures |leaf'| == width
    ensures Fold(H, m, n, leaf', [first] + path[1..]) == Fold(H, m, n, leaf, path)
    decreases |path|
  {
    if SubSize(m, n) == 1 {
      assert path == [path[0]];
      if m < LargestPowerOfTwoBelow(n) {
        var both := leaf + path[0];
        leaf', first := both[..width], both[width..];
        Recut(H, leaf, path[0], leaf', first);
      } else {
        var both := path[0] + leaf;
        leaf', first := both[|both| - width..], both[..|both| - width];
        Recut(H, path[0], leaf, first, leaf');
      }
      assert [first] + path[1..] == [first];
    } else {
      var rest := path[..|path| - 1];
      leaf', first := RecutFold(H, SubIndex(m, n), SubSize(m, n), leaf, rest, width);
      var path' := [first] + path[1..];
      assert path'[..|path'| - 1] == [first] + rest[1..];
    }
  }

  lemma {:induction false} RootIsDigest(H: HashFunction, hashes: seq<Bytes>)
    requires forall h :: h in hashes ==> |h| == DIGEST_SIZE
    ensures |RootFromLeafHashes(H, hashes)| == DIGEST_SIZE
  {
    if |hashes| == 1 { assert hashes[0] in hashes; }
  }

  lemma {:induction false} FirstSiblingIsDigest(H: HashFunction, m: nat, hashes: seq<Bytes>)
    requires m < |hashes| && |hashes| >= 2
    requires forall h :: h in hashes ==> |h| == DIGEST_SIZE
    ensures var path := AuditPath(H, m, hashes);
            path != [] && |path[0]| == DIGEST_SIZE
    decreases |hashes|
  {
    var k := LargestPowerOfTwoBelow(|hashes|);
    RootIsDigest(H, hashes[..k]);
    RootIsDigest(H, hashes[k..]);
    if m < k {
      if k >= 2 { FirstSiblingIsDigest(H, m, hashes[..k]); }
    } else {
      if |hashes| - k >= 2 { FirstSiblingIsDigest(H, m - k, hashes[k..]); }
    }
  }

  /** In every log of two or more rows, at every index and for every width up to 64 bytes,
      `verify_inclusion` accepts some leaf value of that width. */
  lemma {:induction false} WidthUnbound(H: HashFunction, leaves: seq<Bytes>, i: nat, width: nat) returns (leaf: Bytes, path: seq<Bytes>)
    requires |leaves| >= 2 && i < |leaves| && width <= 2 * DIGEST_SIZE
    ensures |leaf| == width
    ensures Verifies(H, i, |leaves|, leaf, path, MerkleRoot(H, leaves))
  {
    var genuine := InclusionProof(H, i, leaves).value;
    Completeness(H, leaves, i);
    FirstSiblingIsDigest(H, i, LeafHashes(H, leaves));
    var first;
    leaf, first := RecutFold(H, i, |leaves|, LeafHash(H, leaves[i]), genuine, width);
    path := [first] + genuine[1..];
  }

  // ---------------------------------------------------------------------------
  // The root binds the whole log, whatever its length
  // ---------------------------------------------------------------------------

  /** The byte string whose hash is the root of the given log. */
  function RootPreimage(H: HashFunction, leaves: seq<Bytes>): Bytes {
    if |leaves| == 0 then []
    else if |leaves| == 1 then LEAF_PREFIX + leaves[0]
    else
      var k := LargestPowerOfTwoBelow(|leaves|);
      NODE_PREFIX + MerkleRoot(H, leaves[..k]) + MerkleRoot(H, leaves[k..])
  }

  lemma {:induction false} RootHashesPreimage(H: HashFunction, leaves: seq<Bytes>)
    ensures MerkleRoot(H, leaves) == H(RootPreimage(H, leaves))
  {
    if |leaves| > 1 {
      var k := LargestPowerOfTwoBelow(|leaves|);
      assert LeafHashes(H, leaves)[..k] == LeafHashes(H, leaves[..k]);
      assert LeafHashes(H, leaves)[k..] == LeafHashes(H, leaves[k..]);
    }
  }

  /** Walks two logs with equal roots down to where their preimages part. */
  function RootCollision(H: HashFunction, a: seq<Bytes>, b: seq<Bytes>): Evidence
    decreases |a|, H
  {
    var here := Compare(RootPreimage(H, a), RootPreimage(H, b));
    if here != NoEvidence || |a| <= 1 || |b| <= 1 then here
    else
      var j, k := LargestPowerOfTwoBelow(|a|), LargestPowerOfTwoBelow(|b|);
      var left := RootCollision(H, a[..j], b[..k]);
      if left != NoEvidence then left else RootCollision(H, a[j..], b[k..])
  }

  /** The first byte of the preimage tells empty logs, single rows and nodes apart. */
  lemma {:induction false} PreimageTag(H: HashFunction, leaves: seq<Bytes>)
    ensures |leaves| == 0 <==> RootPreimage(H, leaves) == []
    ensures |leaves| == 1 <==> RootPreimage(H, leaves) != [] && RootPreimage(H, leaves)[0] == 0
    ensures |leaves| >= 2 <==> RootPreimage(H, leaves) != [] && RootPreimage(H, leaves)[0] == 1
  {
  }

  /** Nodes with one preimage have the same two subtree roots. */
  lemma {:induction false} SubtreeRoots(H: HashFunction, a: seq<Bytes>, b: seq<Bytes>, j: nat, k: nat)
    requires |a| >= 2 && |b| >= 2 && j == LargestPowerOfTwoBelow(|a|) && k == LargestPowerOfTwoBelow(|b|)
    requires RootPreimage(H, a) == RootPreimage(H, b)
    ensures MerkleRoot(H, a[..j]) == MerkleRoot(H, b[..k]) && MerkleRoot(H, a[j..]) == MerkleRoot(H, b[k..])
  {
    RootHashesPreimage(H, a[..j]);
    RootHashesPreimage(H, b[..k]);
    NodePreimages(MerkleRoot(H, a[..j]), MerkleRoot(H, a[j..]), MerkleRoot(H, b[..k]), MerkleRoot(H, b[k..]));
  }

  lemma {:induction false} SingleRows(H: HashFunction, a: seq<Bytes>, b: seq<Bytes>)
    requires |a| == 1 && |b| == 1 && RootPreimage(H, a) == RootPreimage(H, b)
    ensures a == b
  {
    SplitPrefix(LEAF_PREFIX, a[0], LEAF_PREFIX, b[0]);
  }

  lemma {:induction false} Rejoin(a: seq<Bytes>, b: seq<Bytes>, j: nat, k: nat)
    requires j <= |a| && k <= |b| && a[..j] == b[..k] && a[j..] == b[k..]
    ensures a == b
  {
    assert a == a[..j] + a[j..] && b == b[..k] + b[k..];
  }

  /** Equal roots mean equal logs, even of different lengths, or a collision is extracted.
      The prefixes are what tells a leaf from a node here. */
  lemma {:induction false} RootBinding(H: HashFunction, a: seq<Bytes>, b: seq<Bytes>)
    requires MerkleRoot(H, a) == MerkleRoot(H, b)
    ensures var e := RootCollision(H, a, b); if e == NoEvidence then a == b else Breaks(H, e)
    decreases |a|
  {
    RootHashesPreimage(H, a);
    RootHashesPreimage(H, b);
    if RootPreimage(H, a) == RootPreimage(H, b) {
      PreimageTag(H, a);
      PreimageTag(H, b);
      if |a| == 1 {
        SingleRows(H, a, b);
      } else if |a| > 1 {
        var j, k := LargestPowerOfTwoBelow(|a|), LargestPowerOfTwoBelow(|b|);
        SubtreeRoots(H, a, b, j, k);
        RootBinding(H, a[..j], b[..k]);
        RootBinding(H, a[j..], b[k..]);
        if RootCollision(H, a, b) == NoEvidence {
          Rejoin(a, b, j, k);
        }
      }
    }
  }
}
