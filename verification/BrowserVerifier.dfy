/** The browser's inclusion verifier: the same walk with width checks the server's lacks. */
module BrowserVerifier {
  import opened Bytes
  import opened Merkle
  import opened MerkleSecurity

  predicate AllDigests(path: seq<Bytes>) {
    forall i :: 0 <= i < |path| ==> |path[i]| == DIGEST_SIZE
  }

  /** It accepts exactly what the server's verifier accepts with every part 32 bytes wide. */
  predicate BrowserVerifies(H: HashFunction, leafIndex: int, treeSize: int, leaf: Bytes, path: seq<Bytes>, root: Bytes) {
    Verifies(H, leafIndex, treeSize, leaf, path, root) && |leaf| == DIGEST_SIZE && AllDigests(path)
  }

  /** A root that verifies from a digest leaf is a digest, so its own width check never decides. */
  lemma {:induction false} RootWidth(H: HashFunction, leafIndex: int, treeSize: int, leaf: Bytes, path: seq<Bytes>, root: Bytes)
    requires Verifies(H, leafIndex, treeSize, leaf, path, root) && |leaf| == DIGEST_SIZE
    ensures |root| == DIGEST_SIZE
  {
    FoldIsDigest(H, leafIndex, treeSize, leaf, path);
  }

  /** The widths are all that the browser asks for besides. */
  lemma {:induction false} WidthsDecide(H: HashFunction, leafIndex: int, treeSize: int, leaf: Bytes, path: seq<Bytes>, root: Bytes)
    ensures BrowserVerifies(H, leafIndex, treeSize, leaf, path, root) <==>
            && Verifies(H, leafIndex, treeSize, leaf, path, root)
            && |leaf| == 32 && |root| == 32 && forall i :: 0 <= i < |path| ==> |path[i]| == 32
  {
    if Verifies(H, leafIndex, treeSize, leaf, path, root) && |leaf| == 32 {
      RootWidth(H, leafIndex, treeSize, leaf, path, root);
    }
  }

  method VerifyInclusion(H: HashFunction, leafIndex: int, treeSize: int, leafHash: Bytes,
                         auditPath: seq<Bytes>, root: Bytes)
    returns (accepted: bool)
    ensures accepted == BrowserVerifies(H, leafIndex, treeSize, leafHash, auditPath, root)
  {
    if leafIndex < 0 || treeSize <= 0 || leafIndex >= treeSize {
      return false;
    }
    if |leafHash| != DIGEST_SIZE || |root| != DIGEST_SIZE {
      if Verifies(H, leafIndex, treeSize, leafHash, auditPath, root) && |leafHash| == DIGEST_SIZE {
        RootWidth(H, leafIndex, treeSize, leafHash, auditPath, root);
      }
      return false;
    }
    var fn: nat := leafIndex;
    var sn: nat := treeSize - 1;
    var r := leafHash;
    ghost var start := WalkState(leafIndex, treeSize - 1, leafHash);
    RunIsFold(H, leafIndex, treeSize, leafHash, auditPath);
    for i := 0 to |auditPath|
      invariant fn <= sn
      invariant Run(H, WalkState(fn, sn, r), auditPath[i..]) == Run(H, start, auditPath)
      invariant AllDigests(auditPath[..i])
    {
      var sibling := auditPath[i];
      assert auditPath[i..][0] == sibling && auditPath[i..][1..] == auditPath[i + 1..];
      if sn == 0 {
        return false;
      }
      if |sibling| != DIGEST_SIZE {
        return false;
      }
      ghost var before := WalkState(fn, sn, r);
      if fn % 2 == 1 || fn == sn {
        r := NodeHash(H, sibling, r);
        if fn % 2 == 0 {
          while fn % 2 == 0 && fn != 0
            invariant fn <= sn <= before.sn
            invariant Collapse(fn, sn) == Collapse(before.fn, before.sn)
            decreases fn
          {
            fn := fn / 2;
            sn := sn / 2;
          }
        }
      } else {
        r := NodeHash(H, r, sibling);
      }
      fn := fn / 2;
      sn := sn / 2;
      assert WalkState(fn, sn, r) == Step(H, before, sibling);
    }
    assert auditPath[|auditPath|..] == [] && auditPath[..|auditPath|] == auditPath;
    return sn == 0 && r == root;
  }

  lemma {:induction false} PathIsDigests(H: HashFunction, m: nat, hashes: seq<Bytes>)
    requires m < |hashes| && AllDigests(hashes)
    ensures AllDigests(AuditPath(H, m, hashes))
    decreases |hashes|
  {
    if |hashes| > 1 {
      var k := LargestPowerOfTwoBelow(|hashes|);
      RootIsDigest(H, hashes[..k]);
      RootIsDigest(H, hashes[k..]);
      if m < k {
        PathIsDigests(H, m, hashes[..k]);
      } else {
        PathIsDigests(H, m - k, hashes[k..]);
      }
    }
  }

  /** Against a root the server built, its proofs are accepted by both verifiers ... */
  lemma {:induction false} BrowserCompleteness(H: HashFunction, leaves: seq<Bytes>, i: nat)
    requires i < |leaves|
    ensures InclusionProof(H, i, leaves).Some?
    ensures BrowserVerifies(H, i, |leaves|, LeafHash(H, leaves[i]), InclusionProof(H, i, leaves).value, MerkleRoot(H, leaves))
  {
    Completeness(H, leaves, i);
    PathIsDigests(H, i, LeafHashes(H, leaves));
  }

  /** ... and a leaf and path both accept on a digest leaf are accepted by the browser or break the hash:
      the missing width checks matter for nothing else than the leaf. */
  lemma {:induction false} VerifiersAgree(H: HashFunction, leaves: seq<Bytes>, i: int, leaf: Bytes, path: seq<Bytes>)
    requires |leaf| == DIGEST_SIZE && Verifies(H, i, |leaves|, leaf, path, MerkleRoot(H, leaves))
    ensures BrowserVerifies(H, i, |leaves|, leaf, path, MerkleRoot(H, leaves)) ||
            Breaks(H, SoundnessEvidence(H, leaves, i, leaf, path))
  {
    Soundness(H, leaves, i, leaf, path);
    BrowserCompleteness(H, leaves, i);
  }
}
