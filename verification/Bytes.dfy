/** Byte strings, digests and the results of EVM calls, shared by every other module. */
module Bytes {
  type byte = x: int | 0 <= x < 256

  type Bytes = seq<byte>

  /** A uint256 is below this. */
  const TWO256: nat := 0x1_0000000000000000_0000000000000000_0000000000000000_0000000000000000

  /** A `bytes32` value. */
  type Digest = b: Bytes | |b| == 32 witness Zeros(32)

  /** SHA-256 is a parameter: every theorem holds for every function to 32 bytes. */
  type Hash = Bytes -> Digest

  datatype Option<+T> = None | Some(value: T)

  /** Why a contract call reverts. The custom errors keep their names from
      ITendermintZKLightClientErrors, without the common prefix. */
  datatype RevertReason =
    | Panic                       // index out of bounds or checked arithmetic
    | RequireFailed
    | Reverted(message: string)
    | VarintOutOfBounds           // raised by the protobuf runtime
    | TendermintSpecInvalidProof
    | IAVLSpecInvalidProof
    | InvalidInnerPrefixLength
    | InvalidInnerSuffixLength
    | InvalidIAVLOp
    | OnlyIBC
    | InvalidStepVerifierDigest
    | InvalidSkipVerifierDigest
    | InvalidTrustingPeriod
    | ClientStateFrozen
    | InvalidRevisionHeight
    | InvalidRevisionNumber
    | InvalidBlockHash
    | InvalidAppHash
    | InvalidTimestamp
    | InvalidUpdateHeight
    | ConsensusStateNotFound
    | OldConsensusExpired
    | UnexpectedStepVerifierDigest
    | UnexpectedStepInput
    | UnexpectedSkipVerifierDigest
    | UnexpectedSkipInput
    | UnexpectedOutput
    | InvalidSimpleTreeProof
    | ProofInvalid

  /** The result of a call that either returns or reverts. */
  datatype Outcome<+T> = Ok(value: T) | Revert(reason: RevertReason) {
    predicate IsFailure() { Revert? }

    function PropagateFailure<U>(): Outcome<U>
      requires Revert?
    {
      Revert(reason)
    }

    function Extract(): T
      requires Ok?
    {
      value
    }
  }

  function Zeros(n: nat): Bytes {
    seq(n, _ => 0)
  }

  function Require(condition: bool, reason: RevertReason): Outcome<()> {
    if condition then Ok(()) else Revert(reason)
  }

  /** No two distinct strings of `strings` have the same hash. */
  ghost predicate CollisionFree(H: Hash, strings: set<Bytes>) {
    forall a, b {:trigger a in strings, b in strings} :: a in strings && b in strings && H(a) == H(b) ==> a == b
  }

  /** Splitting a concatenation: equal strings with equally long first parts have equal parts. */
  lemma SplitConcat(a: Bytes, b: Bytes, c: Bytes, d: Bytes)
    requires a + b == c + d
    requires |a| == |c|
    ensures a == c && b == d
  {
    assert a == (a + b)[..|a|] == (c + d)[..|c|] == c;
    assert b == (a + b)[|a|..] == (c + d)[|c|..] == d;
  }
}
