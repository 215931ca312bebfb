/** Byte strings, the hash function the audit stack is parametric in, and the
    concrete evidence that a departure from it leaves behind. */
module Bytes {
  type byte = x: int | 0 <= x < 256
  type Bytes = seq<byte>

  const DIGEST_SIZE: nat := 32

  type Digest = d: Bytes | |d| == DIGEST_SIZE witness seq(DIGEST_SIZE, _ => 0)

  /** SHA-256, left uninterpreted: every statement holds for every total function
      from byte strings to 32-byte digests.  Injectivity is never assumed. */
  type HashFunction = Bytes -> Digest

  function Zeros(n: nat): (z: Bytes)
    ensures |z| == n
  {
    seq(n, _ => 0)
  }

  const GENESIS_CHAIN_HASH: Digest := Zeros(DIGEST_SIZE)

  /** What an extractor hands back: nothing, two distinct byte strings with the
      same hash, or a byte string that hashes to the all-zero genesis value. */
  datatype Evidence =
    | NoEvidence
    | Collision(first: Bytes, second: Bytes)
    | GenesisPreimage(preimage: Bytes)

  /** The evidence is real: it can be checked by hashing. */
  predicate Breaks(H: HashFunction, e: Evidence) {
    match e
    case NoEvidence => false
    case Collision(x, y) => x != y && H(x) == H(y)
    case GenesisPreimage(x) => H(x) == GENESIS_CHAIN_HASH
  }

  /** Two strings with one hash, or one that hashes to 32 zeros. */
  lemma {:induction false} BreaksMeans(H: HashFunction, e: Evidence)
    requires Breaks(H, e)
    ensures || (exists x: Bytes, y: Bytes :: x != y && H(x) == H(y))
            || (exists x: Bytes :: forall i :: 0 <= i < 32 ==> H(x)[i] == 0)
  {
    if e.GenesisPreimage? { assert H(e.preimage) == GENESIS_CHAIN_HASH; }
  }

  /** Compares two preimages of one digest. */
  function Compare(x: Bytes, y: Bytes): Evidence {
    if x == y then NoEvidence else Collision(x, y)
  }

  /** Two concatenations that agree, split at the same place, agree piecewise. */
  lemma {:induction false} SplitPrefix(a: Bytes, b: Bytes, c: Bytes, d: Bytes)
    requires a + b == c + d && |a| == |c|
    ensures a == c && b == d
  {
    assert a == (a + b)[..|a|] == (c + d)[..|a|] == c;
    assert b == (a + b)[|a|..] == (c + d)[|a|..] == d;
  }
}
