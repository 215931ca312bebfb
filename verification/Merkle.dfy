/** The RFC 6962 Merkle tree over canonical audit rows: root, audit path, and the
    leaf-to-root verification walk. */
module Merkle {
  import opened Bytes
  import opened Wrappers

  const LEAF_PREFIX: Bytes := [0]
  const NODE_PREFIX: Bytes := [1]

  function NodeHash(H: HashFunction, left: Bytes, right: Bytes): Digest {
    H(NODE_PREFIX + left + right)
  }

  function Pow2(e: nat): (p: nat)
    ensures p >= 1
  {
    if e == 0 then 1 else 2 * Pow2(e - 1)
  }

  lemma {:induction false} SplitExists(n: nat, e: nat)
    requires Pow2(e) < n
    ensures exists d: nat :: Pow2(d) < n <= 2 * Pow2(d)
    decreases n - Pow2(e)
  {
    if n > 2 * Pow2(e) { SplitExists(n, e + 1); }
  }

  lemma {:induction false} Pow2Monotone(a: nat, b: nat)
    requires a <= b
    ensures Pow2(a) <= Pow2(b)
    decreases b
  {
    if a < b { Pow2Monotone(a, b - 1); }
  }

  lemma {:induction false} SplitIsUnique(n: nat, a: nat, b: nat)
    requires Pow2(a) < n <= 2 * Pow2(a) && Pow2(b) < n <= 2 * Pow2(b)
    ensures a == b
  {
    Pow2Monotone(if a < b then a + 1 else a, if a < b then b else a);
    Pow2Monotone(if b < a then b + 1 else b, if b < a then a else b);
  }

  /** The `d` with `2^d < n <= 2^(d+1)`. */
  function SplitExponent(n: nat): (d: nat)
    requires n >= 2
    ensures Pow2(d) < n <= 2 * Pow2(d)
  {
    SplitExists(n, 0);
    assert forall a: nat, b: nat :: Pow2(a) < n <= 2 * Pow2(a) && Pow2(b) < n <= 2 * Pow2(b) ==> a == b by {
      forall a: nat, b: nat | Pow2(a) < n <= 2 * Pow2(a) && Pow2(b) < n <= 2 * Pow2(b) ensures a == b {
        SplitIsUnique(n, a, b);
      }
    }
    var d: nat :| Pow2(d) < n <= 2 * Pow2(d);
    d
  }

  /** The split point of RFC 6962: the power of two `k` with `k < n <= 2k`.
      `SplitByBitLength` shows that the source's shift expression computes it. */
  function LargestPowerOfTwoBelow(n: nat): (k: nat)
    requires n >= 2
    ensures 1 <= k < n <= 2 * k
  {
    Pow2(SplitExponent(n))
  }

  function EmptyTreeHash(H: HashFunction): Digest { H([]) }

  function RootFromLeafHashes(H: HashFunction, hashes: seq<Bytes>): Bytes
    decreases |hashes|, H
  {
    var n := |hashes|;
    if n == 0 then EmptyTreeHash(H)
    else if n == 1 then hashes[0]
    else
      var k := LargestPowerOfTwoBelow(n);
      NodeHash(H, RootFromLeafHashes(H, hashes[..k]), RootFromLeafHashes(H, hashes[k..]))
  }

  /** The audit path of an index in range: sibling roots in leaf-to-root order. */
  function AuditPath(H: HashFunction, m: nat, hashes: seq<Bytes>): seq<Bytes>
    requires m < |hashes|
    decreases |hashes|, H
  {
    var n := |hashes|;
    if n == 1 then []
    else
      var k := LargestPowerOfTwoBelow(n);
      if m < k then AuditPath(H, m, hashes[..k]) + [RootFromLeafHashes(H, hashes[k..])]
      else AuditPath(H, m - k, hashes[k..]) + [RootFromLeafHashes(H, hashes[..k])]
  }

  /** `None` is the source's `ValueError`; the range check can only fail at the outermost call. */
  function PathFromLeafHashes(H: HashFunction, m: int, hashes: seq<Bytes>): (r: Option<seq<Bytes>>)
    ensures r.Some? <==> 0 <= m < |hashes|
  {
    if !(0 <= m < |hashes|) then None else Some(AuditPath(H, m, hashes))
  }

  function LeafHash(H: HashFunction, leaf: Bytes): Digest { H(LEAF_PREFIX + leaf) }

  function LeafHashes(H: HashFunction, leaves: seq<Bytes>): (hs: seq<Bytes>)
    ensures |hs| == |leaves|
    ensures forall i :: 0 <= i < |leaves| ==> hs[i] == LeafHash(H, leaves[i])
  {
    seq(|leaves|, i requires 0 <= i < |leaves| => LeafHash(H, leaves[i]))
  }

  function MerkleRoot(H: HashFunction, leaves: seq<Bytes>): Bytes {
    RootFromLeafHashes(H, LeafHashes(H, leaves))
  }

  /** The root of section 2.1 of RFC 6962 in its own terms: of no row, of one, and of a tree split at `2^e`. */
  lemma {:induction false} TreeHead(H: HashFunction, leaves: seq<Bytes>, e: nat)
    ensures leaves == [] ==> MerkleRoot(H, leaves) == H([])
    ensures |leaves| == 1 ==> MerkleRoot(H, leaves) == H([0] + leaves[0])
    ensures Pow2(e) < |leaves| <= 2 * Pow2(e) ==>
            MerkleRoot(H, leaves) == H([1] + MerkleRoot(H, leaves[..Pow2(e)]) + MerkleRoot(H, leaves[Pow2(e)..]))
  {
    if Pow2(e) < |leaves| <= 2 * Pow2(e) {
      var hashes := LeafHashes(H, leaves);
      SplitIsUnique(|leaves|, e, SplitExponent(|leaves|));
      assert hashes[..Pow2(e)] == LeafHashes(H, leaves[..Pow2(e)]);
      assert hashes[Pow2(e)..] == LeafHashes(H, leaves[Pow2(e)..]);
    }
  }

  function InclusionProof(H: HashFunction, leafIndex: int, leaves: seq<Bytes>): (r: Option<seq<Bytes>>)
    ensures r.Some? <==> 0 <= leafIndex < |leaves|
  {
    PathFromLeafHashes(H, leafIndex, LeafHashes(H, leaves))
  }

  // ---------------------------------------------------------------------------
  // The verification walk, leaf to root
  // ---------------------------------------------------------------------------

  /** Where the inner loop stops: `fn` is odd or zero, `sn` shifted equally often. */
  function Collapse(fn: nat, sn: nat): (c: (nat, nat))
    requires fn <= sn
    ensures c.0 <= c.1 <= sn
    ensures fn == sn ==> c.0 == c.1
    decreases fn
  {
    if fn % 2 == 0 && fn != 0 then Collapse(fn / 2, sn / 2) else (fn, sn)
  }

  datatype WalkState = WalkState(fn: nat, sn: nat, r: Bytes)

  /** One round of the outer loop for a state with `sn != 0`. */
  function Step(H: HashFunction, s: WalkState, sibling: Bytes): (t: WalkState)
    requires s.fn <= s.sn && s.sn > 0
    ensures t.fn <= t.sn < s.sn
  {
    if s.fn % 2 == 1 || s.fn == s.sn then
      var c := if s.fn % 2 == 1 then (s.fn, s.sn) else Collapse(s.fn, s.sn);
      WalkState(c.0 / 2, c.1 / 2, NodeHash(H, sibling, s.r))
    else
      WalkState(s.fn / 2, s.sn / 2, NodeHash(H, s.r, sibling))
  }

  /** The whole walk: the reconstructed root, or `None` if the path has the wrong length. */
  function Run(H: HashFunction, s: WalkState, path: seq<Bytes>): Option<Bytes>
    requires s.fn <= s.sn
    decreases |path|, H
  {
    if path == [] then (if s.sn == 0 then Some(s.r) else None)
    else if s.sn == 0 then None
    else Run(H, Step(H, s, path[0]), path[1..])
  }

  // ---------------------------------------------------------------------------
  // The same reconstruction read root to leaf, in the shape of the tree
  // ---------------------------------------------------------------------------

  function OnLeft(H: HashFunction, child: Option<Bytes>, sibling: Bytes): Option<Bytes> {
    if child.None? then None else Some(NodeHash(H, child.value, sibling))
  }

  function OnRight(H: HashFunction, child: Option<Bytes>, sibling: Bytes): Option<Bytes> {
    if child.None? then None else Some(NodeHash(H, sibling, child.value))
  }

  /** Rebuilds the root of an `n`-leaf tree from leaf `m` by the recursion that defines
      the audit path; `None` if the path does not have that leaf's depth. */
  function Fold(H: HashFunction, m: nat, n: nat, leaf: Bytes, path: seq<Bytes>): Option<Bytes>
    requires m < n
    decreases |path|, H
  {
    if n == 1 then (if path == [] then Some(leaf) else None)
    else if path == [] then None
    else
      var k, sibling, rest := LargestPowerOfTwoBelow(n), path[|path| - 1], path[..|path| - 1];
      if m < k then OnLeft(H, Fold(H, m, k, leaf, rest), sibling)
      else OnRight(H, Fold(H, m - k, n - k, leaf, rest), sibling)
  }

  lemma {:induction false} Halving(e: nat, x: nat)
    requires e > 0
    ensures (x + Pow2(e)) % 2 == x % 2
    ensures (x + Pow2(e)) / 2 == x / 2 + Pow2(e - 1)
    ensures x < Pow2(e) ==> x / 2 < Pow2(e - 1)
  {
    assert Pow2(e) == 2 * Pow2(e - 1);
  }

  /** One step in the left subtree of a split at `2^j`, seen in the whole tree and in the subtree. */
  lemma {:induction false} StepOnLeft(H: HashFunction, j: nat, s: WalkState, sibling: Bytes)
    requires j > 0 && s.fn < Pow2(j) <= s.sn < Pow2(j + 1)
    ensures var t := Step(H, s, sibling);
            && t.fn < Pow2(j - 1) <= t.sn < Pow2(j)
            && Step(H, WalkState(s.fn, Pow2(j) - 1, s.r), sibling) == WalkState(t.fn, Pow2(j - 1) - 1, t.r)
  {
    Halving(j, 0);
    assert Pow2(j + 1) == 2 * Pow2(j);
  }

  /** A walk at a left child of the top split goes as it would in the perfect left
      subtree, and then meets the top sibling on the right. */
  lemma {:induction false} LeftSubtreeWalk(H: HashFunction, j: nat, s: WalkState, path: seq<Bytes>)
    requires path != []
    requires s.fn < Pow2(j) <= s.sn < Pow2(j + 1)
    ensures Run(H, s, path)
         == OnLeft(H, Run(H, WalkState(s.fn, Pow2(j) - 1, s.r), path[..|path| - 1]), path[|path| - 1])
    decreases |path|
  {
    var init := path[..|path| - 1];
    var t := Step(H, s, path[0]);
    assert Run(H, s, path) == Run(H, t, path[1..]);
    if j == 0 {
      assert s.fn == 0 && s.sn == 1 && t == WalkState(0, 0, NodeHash(H, s.r, path[0]));
    } else {
      StepOnLeft(H, j, s, path[0]);
      if |path| > 1 {
        assert init[0] == path[0] && init[1..] == path[1..][..|path[1..]| - 1];
        LeftSubtreeWalk(H, j - 1, t, path[1..]);
      }
    }
  }

  /** Collapsing a border node of the right subtree does not see the bit of the split. */
  lemma {:induction false} CollapseUnderBit(e: nat, x: nat) returns (s: nat)
    requires 0 < x < Pow2(e)
    ensures s < e
    ensures Collapse(x, x).0 < Pow2(e - s)
    ensures Collapse(x + Pow2(e), x + Pow2(e)).0 == Collapse(x, x).0 + Pow2(e - s)
    decreases x
  {
    if x % 2 == 0 {
      Halving(e, x);
      s := CollapseUnderBit(e - 1, x / 2);
      s := s + 1;
    } else {
      s := 0;
      if e > 0 { Halving(e, x); }
    }
  }

  lemma {:induction false} CollapsePower(e: nat)
    ensures Collapse(Pow2(e), Pow2(e)) == (1, 1)
  {
    if e > 0 {
      Halving(e, 0);
      CollapsePower(e - 1);
    }
  }

  /** The state with the bit of a split at `2^e` set in both indices. */
  function WithBit(e: nat, x: WalkState): WalkState {
    WalkState(x.fn + Pow2(e), x.sn + Pow2(e), x.r)
  }

  lemma {:induction false} StepBorder(H: HashFunction, e: nat, x: WalkState, sibling: Bytes) returns (e': nat)
    requires 0 < x.fn == x.sn < Pow2(e) && x.fn % 2 == 0
    ensures e' < e
    ensures Step(H, x, sibling).sn < Pow2(e')
    ensures Step(H, WithBit(e, x), sibling) == WithBit(e', Step(H, x, sibling))
  {
    var s := CollapseUnderBit(e, x.fn);
    var c := Collapse(x.fn, x.fn);
    Halving(e, x.fn);
    Halving(e - s, c.0);
    e' := e - s - 1;
    var d := Collapse(x.fn + Pow2(e), x.fn + Pow2(e));
    assert d.0 == d.1 && c.0 == c.1;
    assert Step(H, x, sibling) == WalkState(c.0 / 2, c.0 / 2, NodeHash(H, sibling, x.r));
    assert Step(H, WithBit(e, x), sibling) == WalkState(d.0 / 2, d.0 / 2, NodeHash(H, sibling, x.r));
  }

  /** One step in the right subtree of a split at `2^e`, seen with and without that bit. */
  lemma {:induction false} StepUnderBit(H: HashFunction, e: nat, x: WalkState, sibling: Bytes) returns (e': nat)
    requires x.fn <= x.sn < Pow2(e) && x.sn > 0
    ensures e' < e
    ensures Step(H, x, sibling).sn < Pow2(e')
    ensures Step(H, WithBit(e, x), sibling) == WithBit(e', Step(H, x, sibling))
  {
    if x.fn == x.sn && x.fn % 2 == 0 {
      e' := StepBorder(H, e, x, sibling);
    } else {
      Halving(e, x.fn);
      Halving(e, x.sn);
      e' := e - 1;
    }
  }

  lemma {:induction false} StepAtSplit(H: HashFunction, e: nat, r: Bytes, sibling: Bytes)
    ensures Step(H, WithBit(e, WalkState(0, 0, r)), sibling) == WalkState(0, 0, NodeHash(H, sibling, r))
  {
    CollapsePower(e);
  }

  /** A walk at a right child of the top split goes as it would in the right subtree,
      and then meets the top sibling on the left. */
  lemma {:induction false} RightSubtreeWalk(H: HashFunction, e: nat, x: WalkState, path: seq<Bytes>)
    requires path != []
    requires x.fn <= x.sn < Pow2(e)
    ensures Run(H, WithBit(e, x), path) == OnRight(H, Run(H, x, path[..|path| - 1]), path[|path| - 1])
    decreases |path|
  {
    if x.sn == 0 {
      StepAtSplit(H, e, x.r, path[0]);
    } else {
      var e' := StepUnderBit(H, e, x, path[0]);
      var t := Step(H, x, path[0]);
      assert Run(H, WithBit(e, x), path) == Run(H, WithBit(e', t), path[1..]);
      if |path| > 1 {
        var init := path[..|path| - 1];
        assert init[0] == path[0] && init[1..] == path[1..][..|path[1..]| - 1];
        RightSubtreeWalk(H, e', t, path[1..]);
      }
    }
  }

  lemma {:induction false} FoldSplit(H: HashFunction, m: nat, n: nat, leaf: Bytes, path: seq<Bytes>)
    requires m < n && n > 1 && path != []
    ensures var k, rest, sibling := LargestPowerOfTwoBelow(n), path[..|path| - 1], path[|path| - 1];
            Fold(H, m, n, leaf, path) ==
            if m < k then OnLeft(H, Fold(H, m, k, leaf, rest), sibling)
            else OnRight(H, Fold(H, m - k, n - k, leaf, rest), sibling)
  {
  }

  lemma {:induction false} WalkBelowBit(H: HashFunction, e: nat, whole: WalkState, x: WalkState, path: seq<Bytes>)
    requires path != [] && x.fn <= x.sn == Pow2(e) - 1 < whole.sn < Pow2(e + 1) && whole == x.(sn := whole.sn)
    ensures Run(H, whole, path) == OnLeft(H, Run(H, x, path[..|path| - 1]), path[|path| - 1])
  {
    LeftSubtreeWalk(H, e, whole, path);
  }

  /** The top split of the tree, seen by the walk from a leaf on the left ... */
  lemma {:induction false} WalkFromLeft(H: HashFunction, m: nat, n: nat, leaf: Bytes, path: seq<Bytes>)
    requires n > 1 && m < LargestPowerOfTwoBelow(n) && path != []
    requires var k, rest := LargestPowerOfTwoBelow(n), path[..|path| - 1];
             Run(H, WalkState(m, k - 1, leaf), rest) == Fold(H, m, k, leaf, rest)
    ensures Run(H, WalkState(m, n - 1, leaf), path) == Fold(H, m, n, leaf, path)
  {
    FoldSplit(H, m, n, leaf, path);
    WalkBelowBit(H, SplitExponent(n), WalkState(m, n - 1, leaf), WalkState(m, LargestPowerOfTwoBelow(n) - 1, leaf), path);
  }

  /** The state of a leaf right of the split, seen in its own subtree. */
  function RightState(m: nat, n: nat, leaf: Bytes): WalkState
    requires n > 1 && LargestPowerOfTwoBelow(n) <= m < n
  {
    WalkState(m - LargestPowerOfTwoBelow(n), n - LargestPowerOfTwoBelow(n) - 1, leaf)
  }

  lemma {:induction false} SplitSetsBit(m: nat, n: nat, leaf: Bytes)
    requires n > 1 && LargestPowerOfTwoBelow(n) <= m < n
    ensures WithBit(SplitExponent(n), RightState(m, n, leaf)) == WalkState(m, n - 1, leaf)
    ensures RightState(m, n, leaf).fn <= RightState(m, n, leaf).sn < Pow2(SplitExponent(n))
  {
  }

  lemma {:induction false} WalkWithBit(H: HashFunction, e: nat, whole: WalkState, x: WalkState, path: seq<Bytes>)
    requires path != [] && x.fn <= x.sn < Pow2(e) && whole == WithBit(e, x)
    ensures Run(H, whole, path) == OnRight(H, Run(H, x, path[..|path| - 1]), path[|path| - 1])
  {
    RightSubtreeWalk(H, e, x, path);
  }

  /** ... and from a leaf on the right. */
  lemma {:induction false} WalkFromRight(H: HashFunction, m: nat, n: nat, leaf: Bytes, path: seq<Bytes>)
    requires n > 1 && LargestPowerOfTwoBelow(n) <= m < n && path != []
    requires RightState(m, n, leaf).fn <= RightState(m, n, leaf).sn
    requires var k, rest := LargestPowerOfTwoBelow(n), path[..|path| - 1];
             Run(H, RightState(m, n, leaf), rest) == Fold(H, m - k, n - k, leaf, rest)
    ensures Run(H, WalkState(m, n - 1, leaf), path) == Fold(H, m, n, leaf, path)
  {
    FoldSplit(H, m, n, leaf, path);
    SplitSetsBit(m, n, leaf);
    WalkWithBit(H, SplitExponent(n), WalkState(m, n - 1, leaf), RightState(m, n, leaf), path);
  }

  lemma {:induction false} WalkAtEnd(H: HashFunction, m: nat, n: nat, leaf: Bytes, path: seq<Bytes>)
    requires m < n && (n == 1 || path == [])
    ensures Run(H, WalkState(m, n - 1, leaf), path) == Fold(H, m, n, leaf, path)
  {
  }

  lemma {:induction false} RunOnLeft(H: HashFunction, m: nat, n: nat, leaf: Bytes, path: seq<Bytes>)
    requires n > 1 && m < LargestPowerOfTwoBelow(n) && path != []
    ensures Run(H, WalkState(m, n - 1, leaf), path) == Fold(H, m, n, leaf, path)
    decreases |path|, 0
  {
    RunIsFold(H, m, LargestPowerOfTwoBelow(n), leaf, path[..|path| - 1]);
    WalkFromLeft(H, m, n, leaf, path);
  }

  lemma {:induction false} RunOnRight(H: HashFunction, m: nat, n: nat, leaf: Bytes, path: seq<Bytes>)
    requires n > 1 && LargestPowerOfTwoBelow(n) <= m < n && path != []
    ensures Run(H, WalkState(m, n - 1, leaf), path) == Fold(H, m, n, leaf, path)
    decreases |path|, 0
  {
    RunIsFold(H, m - LargestPowerOfTwoBelow(n), n - LargestPowerOfTwoBelow(n), leaf, path[..|path| - 1]);
    WalkFromRight(H, m, n, leaf, path);
  }

  /** The loop computes the recursion: for every index, every size and every path. */
  lemma {:induction false} RunIsFold(H: HashFunction, m: nat, n: nat, leaf: Bytes, path: seq<Bytes>)
    requires m < n
    ensures Run(H, WalkState(m, n - 1, leaf), path) == Fold(H, m, n, leaf, path)
    decreases |path|, 1
  {
    if n == 1 || path == [] {
      WalkAtEnd(H, m, n, leaf, path);
    } else if m < LargestPowerOfTwoBelow(n) {
      RunOnLeft(H, m, n, leaf, path);
    } else {
      RunOnRight(H, m, n, leaf, path);
    }
  }

  /** What acceptance means: rebuilding the root along the RFC 6962 tree gives the claimed root. */
  predicate Verifies(H: HashFunction, leafIndex: int, treeSize: int, leaf: Bytes, path: seq<Bytes>, root: Bytes) {
    0 <= leafIndex < treeSize && Fold(H, leafIndex, treeSize, leaf, path) == Some(root)
  }

  method VerifyInclusion(H: HashFunction, leafIndex: int, treeSize: int, leafHashValue: Bytes,
                         auditPath: seq<Bytes>, root: Bytes)
    returns (accepted: bool)
    ensures accepted == Verifies(H, leafIndex, treeSize, leafHashValue, auditPath, root)
  {
    if leafIndex < 0 || treeSize <= 0 || leafIndex >= treeSize {
      return false;
    }
    var fn: nat := leafIndex;
    var sn: nat := treeSize - 1;
    var r := leafHashValue;
    ghost var start := WalkState(leafIndex, treeSize - 1, leafHashValue);
    RunIsFold(H, leafIndex, treeSize, leafHashValue, auditPath);
    for i := 0 to |auditPath|
      invariant fn <= sn
      invariant Run(H, WalkState(fn, sn, r), auditPath[i..]) == Run(H, start, auditPath)
    {
      var sibling := auditPath[i];
      assert auditPath[i..][0] == sibling && auditPath[i..][1..] == auditPath[i + 1..];
      if sn == 0 {
        return false;
      }
      ghost var before := WalkState(fn, sn, r);
      if fn % 2 == 1 || fn == sn {
        r := NodeHash(H, sibling, r);
        if !(fn % 2 == 1) {
          while fn % 2 == 0 && fn != 0
            invariant fn <= sn <= before.sn
            invariant Collapse(fn, sn) == Collapse(before.fn, before.sn)
            decreases fn
          {
            fn := fn / 2;
            sn := sn / 2;
          }
        }
      } else {
        r := NodeHash(H, r, sibling);
      }
      fn := fn / 2;
      sn := sn / 2;
      assert WalkState(fn, sn, r) == Step(H, before, sibling);
    }
    assert auditPath[|auditPath|..] == [];
    return sn == 0 && r == root;
  }
}
