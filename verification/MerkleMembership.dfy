/** What an accepted row means when the claimed index and size are not trusted. */
module MerkleMembership {
  import opened Bytes
  import opened Merkle
  import opened MerkleSecurity
  import opened Wrappers

  /** The half of a log below the side of the top split that leaf `m` of `n` is on. */
  function Half(leaves: seq<Bytes>, m: nat, n: nat): seq<Bytes>
    requires |leaves| >= 2 && n > 1
  {
    var k := LargestPowerOfTwoBelow(|leaves|);
    if m < LargestPowerOfTwoBelow(n) then leaves[..k] else leaves[k..]
  }

  /** Follows an accepted proof for the row bytes `row` down the genuine tree. */
  function MembershipCollision(H: HashFunction, leaves: seq<Bytes>, m: nat, n: nat, row: Bytes, path: seq<Bytes>): Evidence
    requires m < n && Fold(H, m, n, LeafHash(H, row), path).Some?
    decreases |path|, H
  {
    var y := RootPreimage(H, leaves);
    if n == 1 then Compare(LEAF_PREFIX + row, y)
    else
      var x := TopPreimage(H, m, n, LeafHash(H, row), path);
      if x != y || |leaves| < 2 then Compare(x, y)
      else MembershipCollision(H, Half(leaves, m, n), SubIndex(m, n), SubSize(m, n), row, path[..|path| - 1])
  }

  lemma {:induction false} MembershipStep(H: HashFunction, leaves: seq<Bytes>, m: nat, n: nat, row: Bytes, path: seq<Bytes>)
    requires m < n && n > 1 && Fold(H, m, n, LeafHash(H, row), path).Some?
    requires TopPreimage(H, m, n, LeafHash(H, row), path) == RootPreimage(H, leaves)
    ensures |leaves| >= 2
    ensures Fold(H, SubIndex(m, n), SubSize(m, n), LeafHash(H, row), path[..|path| - 1])
         == Some(MerkleRoot(H, Half(leaves, m, n)))
  {
    PreimageTag(H, leaves);
    assert TopPreimage(H, m, n, LeafHash(H, row), path)[0] == 1;
    var sibling, rest := path[|path| - 1], path[..|path| - 1];
    var j := LargestPowerOfTwoBelow(|leaves|);
    FoldIsDigest(H, SubIndex(m, n), SubSize(m, n), LeafHash(H, row), rest);
    var child := Fold(H, SubIndex(m, n), SubSize(m, n), LeafHash(H, row), rest).value;
    RootHashesPreimage(H, leaves[..j]);
    RootHashesPreimage(H, leaves[j..]);
    if m < LargestPowerOfTwoBelow(n) {
      NodePreimages(child, sibling, MerkleRoot(H, leaves[..j]), MerkleRoot(H, leaves[j..]));
    } else {
      NodePreimages(sibling, child, MerkleRoot(H, leaves[..j]), MerkleRoot(H, leaves[j..]));
    }
  }

  /** Where the left and right turns that lead to leaf `m` of `n` lead in a tree of `size` leaves;
      `None` if they end above its leaves or below them. */
  function Landing(size: nat, m: nat, n: nat): (j: Option<nat>)
    requires m < n
    ensures j.Some? ==> j.value < size
    decreases n
  {
    if n == 1 then (if size == 1 then Some(0) else None)
    else if size < 2 then None
    else
      var k := LargestPowerOfTwoBelow(size);
      if m < LargestPowerOfTwoBelow(n) then Landing(k, SubIndex(m, n), SubSize(m, n))
      else
        match Landing(size - k, SubIndex(m, n), SubSize(m, n))
        case None => None
        case Some(j) => Some(k + j)
  }

  /** The row the turns of leaf `m` of `n` lead to, if any. */
  predicate LandsOn(leaves: seq<Bytes>, m: nat, n: nat, row: Bytes)
    requires m < n
  {
    Landing(|leaves|, m, n).Some? && leaves[Landing(|leaves|, m, n).value] == row
  }

  lemma {:induction false} LandsInHalf(leaves: seq<Bytes>, m: nat, n: nat, row: Bytes)
    requires m < n && n > 1 && |leaves| >= 2
    ensures LandsOn(Half(leaves, m, n), SubIndex(m, n), SubSize(m, n), row) ==> LandsOn(leaves, m, n, row)
  {
  }

  lemma {:induction false} MembershipBinding(H: HashFunction, leaves: seq<Bytes>, m: nat, n: nat, row: Bytes, path: seq<Bytes>)
    requires m < n
    requires Fold(H, m, n, LeafHash(H, row), path) == Some(MerkleRoot(H, leaves))
    ensures var e := MembershipCollision(H, leaves, m, n, row, path);
            if e == NoEvidence then LandsOn(leaves, m, n, row) else Breaks(H, e)
    decreases |path|
  {
    RootHashesPreimage(H, leaves);
    var y := RootPreimage(H, leaves);
    if n == 1 {
      PreimageTag(H, leaves);
      if LEAF_PREFIX + row == y {
        SplitPrefix(LEAF_PREFIX, row, LEAF_PREFIX, leaves[0]);
      }
    } else if TopPreimage(H, m, n, LeafHash(H, row), path) == y {
      MembershipStep(H, leaves, m, n, row, path);
      MembershipBinding(H, Half(leaves, m, n), SubIndex(m, n), SubSize(m, n), row, path[..|path| - 1]);
      LandsInHalf(leaves, m, n, row);
    }
  }

  function MembershipEvidence(H: HashFunction, leaves: seq<Bytes>, i: int, n: int, row: Bytes, path: seq<Bytes>): Evidence
    requires Verifies(H, i, n, LeafHash(H, row), path, MerkleRoot(H, leaves))
  {
    MembershipCollision(H, leaves, i, n, row, path)
  }

  /** Whatever index and size the proof claims, a row accepted against the root of a log is the row of
      that log which the claim lands on, or a collision is extracted. */
  lemma {:induction false} Membership(H: HashFunction, leaves: seq<Bytes>, i: int, n: int, row: Bytes, path: seq<Bytes>)
    requires Verifies(H, i, n, LeafHash(H, row), path, MerkleRoot(H, leaves))
    ensures var e := MembershipEvidence(H, leaves, i, n, row, path);
            if e == NoEvidence then LandsOn(leaves, i, n, row) else Breaks(H, e)
  {
    MembershipBinding(H, leaves, i, n, row, path);
  }

  // ---------------------------------------------------------------------------
  // Every landing is reached
  // ---------------------------------------------------------------------------

  /** The genuine proof of the row that leaf `m` of `n` lands on. */
  function LandingProof(H: HashFunction, leaves: seq<Bytes>, m: nat, n: nat): seq<Bytes>
    requires m < n && Landing(|leaves|, m, n).Some?
  {
    AuditPath(H, Landing(|leaves|, m, n).value, LeafHashes(H, leaves))
  }

  function LandingRow(leaves: seq<Bytes>, m: nat, n: nat): Bytes
    requires m < n && Landing(|leaves|, m, n).Some?
  {
    leaves[Landing(|leaves|, m, n).value]
  }

  lemma {:induction false} HalfHashes(H: HashFunction, leaves: seq<Bytes>, k: nat)
    requires k <= |leaves|
    ensures LeafHashes(H, leaves)[..k] == LeafHashes(H, leaves[..k])
    ensures LeafHashes(H, leaves)[k..] == LeafHashes(H, leaves[k..])
  {
  }

  /** The proof of a landing is the proof in its half, and the root of the other half. */
  lemma {:induction false} LandingProofSplit(H: HashFunction, leaves: seq<Bytes>, m: nat, n: nat)
    requires m < n && n > 1 && |leaves| >= 2 && Landing(|leaves|, m, n).Some?
    ensures var half := Half(leaves, m, n);
            var k := LargestPowerOfTwoBelow(|leaves|);
            && Landing(|half|, SubIndex(m, n), SubSize(m, n)).Some?
            && LandingRow(leaves, m, n) == LandingRow(half, SubIndex(m, n), SubSize(m, n))
            && LandingProof(H, leaves, m, n) == LandingProof(H, half, SubIndex(m, n), SubSize(m, n))
                 + [MerkleRoot(H, if m < LargestPowerOfTwoBelow(n) then leaves[k..] else leaves[..k])]
  {
    var k, j := LargestPowerOfTwoBelow(|leaves|), Landing(|leaves|, m, n).value;
    HalfHashes(H, leaves, k);
    if m < LargestPowerOfTwoBelow(n) {
      assert j < k;
    } else {
      assert j >= k;
    }
  }

  lemma {:induction false} FoldOfSnoc(H: HashFunction, m: nat, n: nat, leaf: Bytes, rest: seq<Bytes>, sibling: Bytes)
    requires m < n && n > 1
    ensures var child := Fold(H, SubIndex(m, n), SubSize(m, n), leaf, rest);
            Fold(H, m, n, leaf, rest + [sibling]) ==
            if m < LargestPowerOfTwoBelow(n) then OnLeft(H, child, sibling) else OnRight(H, child, sibling)
  {
    var path := rest + [sibling];
    assert path[..|path| - 1] == rest && path[|path| - 1] == sibling;
  }

  lemma {:induction false} LandingFolds(H: HashFunction, leaves: seq<Bytes>, m: nat, n: nat)
    requires m < n && Landing(|leaves|, m, n).Some?
    ensures Fold(H, m, n, LeafHash(H, LandingRow(leaves, m, n)), LandingProof(H, leaves, m, n)) == Some(MerkleRoot(H, leaves))
    decreases n
  {
    if n > 1 {
      var half, k := Half(leaves, m, n), LargestPowerOfTwoBelow(|leaves|);
      var other := MerkleRoot(H, if m < LargestPowerOfTwoBelow(n) then leaves[k..] else leaves[..k]);
      LandingProofSplit(H, leaves, m, n);
      LandingFolds(H, half, SubIndex(m, n), SubSize(m, n));
      FoldOfSnoc(H, m, n, LeafHash(H, LandingRow(leaves, m, n)), LandingProof(H, half, SubIndex(m, n), SubSize(m, n)), other);
      HalfHashes(H, leaves, k);
    }
  }

  /** The genuine proof of that row is accepted under the claim it was not made for. */
  lemma {:induction false} LandingAccepted(H: HashFunction, leaves: seq<Bytes>, i: nat, n: nat)
    requires i < n && Landing(|leaves|, i, n).Some?
    ensures Some(LandingProof(H, leaves, i, n)) == InclusionProof(H, Landing(|leaves|, i, n).value, leaves)
    ensures Verifies(H, i, n, LeafHash(H, LandingRow(leaves, i, n)), LandingProof(H, leaves, i, n), MerkleRoot(H, leaves))
  {
    LandingFolds(H, leaves, i, n);
  }

  lemma {:induction false} TopOfLanding(H: HashFunction, leaves: seq<Bytes>, m: nat, n: nat)
    requires m < n && n > 1 && Landing(|leaves|, m, n).Some?
    requires Fold(H, m, n, LeafHash(H, LandingRow(leaves, m, n)), LandingProof(H, leaves, m, n)).Some?
    ensures TopPreimage(H, m, n, LeafHash(H, LandingRow(leaves, m, n)), LandingProof(H, leaves, m, n)) == RootPreimage(H, leaves)
  {
    var half := Half(leaves, m, n);
    LandingProofSplit(H, leaves, m, n);
    LandingFolds(H, half, SubIndex(m, n), SubSize(m, n));
    var path := LandingProof(H, leaves, m, n);
    assert path[..|path| - 1] == LandingProof(H, half, SubIndex(m, n), SubSize(m, n));
  }

  /** Following it down the tree turns up no evidence. */
  lemma {:induction false} LandingIsInnocent(H: HashFunction, leaves: seq<Bytes>, m: nat, n: nat)
    requires m < n && Landing(|leaves|, m, n).Some?
    ensures Fold(H, m, n, LeafHash(H, LandingRow(leaves, m, n)), LandingProof(H, leaves, m, n)).Some?
    ensures MembershipCollision(H, leaves, m, n, LandingRow(leaves, m, n), LandingProof(H, leaves, m, n)) == NoEvidence
    decreases n
  {
    LandingFolds(H, leaves, m, n);
    if n > 1 {
      var half := Half(leaves, m, n);
      LandingProofSplit(H, leaves, m, n);
      LandingFolds(H, half, SubIndex(m, n), SubSize(m, n));
      LandingIsInnocent(H, half, SubIndex(m, n), SubSize(m, n));
      var path := LandingProof(H, leaves, m, n);
      assert path[..|path| - 1] == LandingProof(H, half, SubIndex(m, n), SubSize(m, n));
      TopOfLanding(H, leaves, m, n);
    }
  }

  // ---------------------------------------------------------------------------
  // When a claimed index can be believed
  // ---------------------------------------------------------------------------

  /** The claimed leaf of the claimed size lands nowhere in a log of the true size, or on itself. */
  predicate Unambiguous(size: nat, i: nat, n: nat)
    requires i < n
  {
    Landing(size, i, n) == None || Landing(size, i, n) == Some(i)
  }

  /** In every log of this size every row accepted under the claim is the row at the claimed index, or
      a collision is extracted. */
  ghost predicate IndexHolds(H: HashFunction, size: nat, i: nat, n: nat)
    requires i < n
  {
    forall leaves: seq<Bytes>, row: Bytes, path: seq<Bytes> |
      |leaves| == size && Verifies(H, i, n, LeafHash(H, row), path, MerkleRoot(H, leaves)) ::
      (i < size && row == leaves[i]) || Breaks(H, MembershipEvidence(H, leaves, i, n, row, path))
  }

  /** A log of pairwise different rows. */
  function Rows(size: nat): (leaves: seq<Bytes>)
    ensures |leaves| == size
    ensures forall x, y :: 0 <= x < y < size ==> leaves[x] != leaves[y]
  {
    assert forall x: nat :: |Zeros(x)| == x;
    seq(size, x requires 0 <= x < size => Zeros(x))
  }

  /** A claimed index holds for all logs of a size iff the claim is unambiguous there, which whoever
      knows the size can check beforehand. */
  lemma {:induction false} IndexBound(H: HashFunction, size: nat, i: nat, n: nat)
    requires i < n
    ensures IndexHolds(H, size, i, n) <==> Unambiguous(size, i, n)
  {
    if Unambiguous(size, i, n) {
      forall leaves: seq<Bytes>, row: Bytes, path: seq<Bytes> |
        |leaves| == size && Verifies(H, i, n, LeafHash(H, row), path, MerkleRoot(H, leaves))
        ensures (i < size && row == leaves[i]) || Breaks(H, MembershipEvidence(H, leaves, i, n, row, path))
      {
        Membership(H, leaves, i, n, row, path);
      }
    } else {
      var leaves := Rows(size);
      LandingAccepted(H, leaves, i, n);
      LandingIsInnocent(H, leaves, i, n);
      var row, path := LandingRow(leaves, i, n), LandingProof(H, leaves, i, n);
      assert !Breaks(H, MembershipEvidence(H, leaves, i, n, row, path));
      assert !(i < size && row == leaves[i]);
    }
  }

  /** With the true size every index is its own landing. */
  lemma {:induction false} TrueSizeLands(m: nat, n: nat)
    requires m < n
    ensures Landing(n, m, n) == Some(m)
    decreases n
  {
    if n > 1 {
      TrueSizeLands(SubIndex(m, n), SubSize(m, n));
    }
  }

  /** An ambiguous claim: in a three-row log the proof of the last row is accepted, against the same
      root, at index 1 of a two-row log. */
  lemma {:induction false} IndexNeedsSize(H: HashFunction, a: Bytes, b: Bytes, c: Bytes)
    ensures var leaves := [a, b, c];
            var path := InclusionProof(H, 2, leaves).value;
            && Verifies(H, 2, 3, LeafHash(H, c), path, MerkleRoot(H, leaves))
            && Verifies(H, 1, 2, LeafHash(H, c), path, MerkleRoot(H, leaves))
  {
    var leaves := [a, b, c];
    var hashes := LeafHashes(H, leaves);
    Completeness(H, leaves, 2);
    assert LargestPowerOfTwoBelow(3) == 2;
    assert hashes[2..] == [hashes[2]];
    var ab := RootFromLeafHashes(H, hashes[..2]);
    assert AuditPath(H, 2, hashes) == [ab];
  }
}
