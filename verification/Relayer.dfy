/** The relayer's update message (go/relay/zkprover.go, go/relay/prover.go), its conversion by
    contracts/TendermintZKLightClientProtoMarshaler.sol, and when the contract accepts it. */
module Relayer {
  import opened Bytes
  import opened ProtoWire
  import opened BigEndian
  import opened LightClient
  import opened LightClientSafety
  import opened RelayerTree
  import opened Messages
  import TendermintHeader

  // ---------------------------------------------------------------------------- public inputs

  /** Clearing the three top bits of a digest, as `&= 0x1f` on its first byte does. */
  function Masked(d: Digest): Digest {
    [d[0] % 32] + d[1..]
  }

  /** The public inputs the relayer expects of the prover, as 32-byte arrays. */
  function InputArrays(H: Hash, chain: Chain, stepDigest: Bytes, skipDigest: Bytes, trusted: uint64, target: uint64)
    : seq<Digest>
    requires trusted < target
  {
    var from := BlockHash(H, chain(trusted));
    var to := BlockHash(H, chain(target));
    if target - trusted == 1
    then [Bytes32(stepDigest), Masked(H(StepString(trusted, from))), Masked(H(to))]
    else [Bytes32(skipDigest), Masked(H(SkipString(trusted, from, target))), Masked(H(to))]
  }

  /** The same as numbers. */
  function ExpectedInputs(H: Hash, chain: Chain, stepDigest: Bytes, skipDigest: Bytes, trusted: uint64, target: uint64)
    : (r: seq<nat>)
    requires trusted < target
    ensures |r| == 3 && forall k :: 0 <= k < 3 ==> r[k] < TWO256
  {
    var i := InputArrays(H, chain, stepDigest, skipDigest, trusted, target);
    DigestBound(i[0]);
    DigestBound(i[1]);
    DigestBound(i[2]);
    [ToNat(i[0]), ToNat(i[1]), ToNat(i[2])]
  }

  /** proveMock: fills three 32-byte arrays and reads them as big-endian numbers. None stands for an
      error: heights out of order, or a header the node does not serve. */
  method ProveMock(H: Hash, chain: Chain, serves: uint64 -> bool, stepDigest: Bytes, skipDigest: Bytes,
                   trusted: uint64, target: uint64)
    returns (r: Option<seq<nat>>)
    ensures r == if trusted >= target || !serves(target) || !serves(trusted) then None
                 else Some(ExpectedInputs(H, chain, stepDigest, skipDigest, trusted, target))
  {
    hide BlockHash, ToNat, FromNat;
    if trusted >= target {
      return None;
    }
    if !serves(target) {
      return None;
    }
    var input := new Digest[3](_ => Zeros(32));
    var input2: Digest := BlockHash(H, chain(target));
    input[2] := H(input2);
    input[2] := input[2][0 := input[2][0] % 32];
    assert input[2] == Masked(H(input2));
    if !serves(trusted) {
      return None;
    }
    var trustedBlockHash := BlockHash(H, chain(trusted));
    if target - trusted == 1 {
      input[0] := Bytes32(stepDigest);
      var input1 := FromNat(trusted, 8) + trustedBlockHash;
      input[1] := H(input1);
    } else {
      input[0] := Bytes32(skipDigest);
      var input1 := FromNat(trusted, 8) + trustedBlockHash + FromNat(target, 8);
      input[1] := H(input1);
    }
    ghost var digest := input[1];
    input[1] := input[1][0 := input[1][0] % 32];
    assert input[1] == Masked(digest);
    return Some([ToNat(input[0]), ToNat(input[1]), ToNat(input[2])]);
  }

  // ---------------------------------------------------------------------------------- message

  /** The message built at the end of SetupHeadersForUpdate from the target header and the proof.
      A number is sent as its minimal bytes. */
  function BuildMessage(H: Hash, chain: Chain, trusted: uint64, target: uint64, input: seq<nat>, zkProof: Bytes)
    : Outcome<UpdateStateValue>
    requires |input| == 3
  {
    var header := chain(target);
    var proof :- GetSimpleTreeProof(H, header);
    Ok(UpdateStateValue(trusted, target, BlockHash(H, header), header.time, header.appHash, proof,
                        [MinBytes(input[0]), MinBytes(input[1]), MinBytes(input[2])], zkProof))
  }

  // ------------------------------------------------------------------------------- conversion

  /** convertSimpleTreeProof: six siblings of exactly 32 bytes; further ones are ignored. */
  function ConvertProof(proof: seq<Bytes>, n: nat): Outcome<seq<Digest>>
    requires n <= 6
  {
    if n == 0 then Ok([])
    else
      var front :- ConvertProof(proof, n - 1);
      if n > |proof| then Revert(Panic)
      else if |proof[n - 1]| != 32 then Revert(RequireFailed)
      else Ok(front + [Bytes32(proof[n - 1])])
  }

  lemma {:induction false} ConvertProofReverts(proof: seq<Bytes>, n: nat, k: nat)
    requires n <= k <= 6 && ConvertProof(proof, n).Revert?
    ensures ConvertProof(proof, k) == ConvertProof(proof, n)
  {
    if n < k {
      ConvertProofReverts(proof, n, k - 1);
    }
  }

  /** On success the result is the first six siblings. */
  lemma {:induction false} ConvertProofExact(proof: seq<Bytes>, n: nat)
    requires n <= 6
    ensures ConvertProof(proof, n).Ok? <==> n <= |proof| && forall i :: 0 <= i < n ==> |proof[i]| == 32
    ensures ConvertProof(proof, n).Ok? ==> ConvertProof(proof, n).value == proof[..n]
  {
    if n > 0 {
      ConvertProofExact(proof, n - 1);
      if ConvertProof(proof, n).Ok? {
        assert proof[..n] == proof[..n - 1] + [proof[n - 1]];
        assert proof[n - 1][..32] == proof[n - 1];
      }
    }
  }

  method ConvertSimpleTreeProof(proof: seq<Bytes>) returns (r: Outcome<seq<Digest>>)
    ensures r == ConvertProof(proof, 6)
  {
    var simpleTreeProof := new Digest[6](_ => Zeros(32));
    for i := 0 to 6
      invariant ConvertProof(proof, i) == Ok(simpleTreeProof[..i])
    {
      if ConvertProof(proof, i + 1).Revert? {
        ConvertProofReverts(proof, i + 1, 6);
      }
      if i >= |proof| {
        return Revert(Panic);
      }
      if |proof[i]| != 32 {
        return Revert(RequireFailed);
      }
      simpleTreeProof[i] := Bytes32(proof[i]);
      assert simpleTreeProof[..i + 1] == simpleTreeProof[..i] + [simpleTreeProof[i]];
    }
    assert simpleTreeProof[..6] == simpleTreeProof[..];
    return Ok(simpleTreeProof[..]);
  }

  /** convertUpdateStateMessage, on the decoded message: the input of the update and the proof. */
  function Convert(m: UpdateStateValue): Outcome<(UpdateStateInput, Bytes)> {
    var _ :- Require(|m.input| == 3, RequireFailed);
    var proof :- ConvertProof(m.simpleTreeProof, 6);
    assert |proof| == 6 by { ConvertProofExact(m.simpleTreeProof, 6); }
    Ok((UpdateStateInput(m.trustedHeight, m.untrustedHeight, Bytes32(m.untrustedBlockHash), m.timestamp,
                         Bytes32(m.appHash), proof,
                         [ToNat(Bytes32(m.input[0])), ToNat(Bytes32(m.input[1])), ToNat(Bytes32(m.input[2]))]),
        m.zkProof))
  }

  method ConvertUpdateStateMessage(m: UpdateStateValue) returns (r: Outcome<(UpdateStateInput, Bytes)>)
    ensures r == Convert(m)
  {
    hide ToNat, Bytes32;
    var _ :- Require(|m.input| == 3, RequireFailed);
    var publicInput := new nat[3](_ => 0);
    for i := 0 to 3
      invariant forall j :: 0 <= j < i ==> publicInput[j] == ToNat(Bytes32(m.input[j]))
    {
      publicInput[i] := ToNat(Bytes32(m.input[i]));
    }
    var proof :- ConvertSimpleTreeProof(m.simpleTreeProof);
    ConvertProofExact(m.simpleTreeProof, 6);
    assert publicInput[..] == [publicInput[0], publicInput[1], publicInput[2]];
    return Ok((UpdateStateInput(m.trustedHeight, m.untrustedHeight, Bytes32(m.untrustedBlockHash), m.timestamp,
                                Bytes32(m.appHash), proof, publicInput[..]),
               m.zkProof));
  }

  /** Conversion succeeds exactly on three inputs and six or more siblings of which the first six have
      32 bytes; every field comes from its own field, byte strings as bytes32. */
  lemma ConvertExact(m: UpdateStateValue)
    ensures Convert(m).Ok? <==>
            |m.input| == 3 && |m.simpleTreeProof| >= 6 && forall i :: 0 <= i < 6 ==> |m.simpleTreeProof[i]| == 32
    ensures Convert(m).Ok? ==>
              var (u, proof) := Convert(m).value;
              && u.trustedHeight == m.trustedHeight && u.untrustedHeight == m.untrustedHeight
              && u.untrustedBlockHash == Bytes32(m.untrustedBlockHash) && u.appHash == Bytes32(m.appHash)
              && u.timestamp == m.timestamp && u.simpleTreeProof == m.simpleTreeProof[..6]
              && (forall i :: 0 <= i < 3 ==> u.input[i] == ToNat(Bytes32(m.input[i])))
              && proof == m.zkProof
  {
    hide ToNat, Bytes32;
    ConvertProofExact(m.simpleTreeProof, 6);
  }

  // -------------------------------------------------------------------------------- agreement

  /** The number survives being sent as minimal bytes and read as a bytes32. */
  predicate Survives(v: nat) {
    v == 0 || v >= TWO248
  }

  /** The relayer expects the public inputs the contract computes for its stored block. */
  lemma ExpectedInputsAgree(cfg: Config, chain: Chain, stepDigest: Bytes, skipDigest: Bytes,
                            trusted: uint64, target: uint64, m: UpdateStateInput)
    requires trusted < target && m.trustedHeight == trusted && m.untrustedHeight == target
    requires m.untrustedBlockHash == BlockHash(cfg.H, chain(target))
    requires cfg.stepVerifierDigest == ToNat(Bytes32(stepDigest))
    requires cfg.skipVerifierDigest == ToNat(Bytes32(skipDigest))
    ensures ExpectedInputs(cfg.H, chain, stepDigest, skipDigest, trusted, target)
            == PublicInputs(cfg, MessageClaim(m, BlockHash(cfg.H, chain(trusted))))
  {
    hide BlockHash, ToNat, StepString, SkipString;
    var from, to := BlockHash(cfg.H, chain(trusted)), BlockHash(cfg.H, chain(target));
    MaskTopBits(cfg.H(to));
    MaskTopBits(cfg.H(StepString(trusted, from)));
    MaskTopBits(cfg.H(SkipString(trusted, from, target)));
  }

  /** The converted message carries the relayer's header and proof, and those of its inputs that
      survive. */
  lemma MessageConverts(H: Hash, chain: Chain, trusted: uint64, target: uint64, input: seq<nat>, zkProof: Bytes)
    requires |input| == 3 && forall i :: 0 <= i < 3 ==> input[i] < TWO256
    requires chain(target).validatorsHash != [] && |chain(target).appHash| == 32
    ensures var built := BuildMessage(H, chain, trusted, target, input, zkProof);
            && built.Ok? && Convert(built.value).Ok?
            && var (m, proof) := Convert(built.value).value;
               && proof == zkProof
               && m.trustedHeight == trusted && m.untrustedHeight == target
               && m.untrustedBlockHash == BlockHash(H, chain(target))
               && m.timestamp == chain(target).time && m.appHash == chain(target).appHash
               && m.untrustedBlockHash == TendermintHeader.MerkleRoot(H, m.timestamp, m.appHash, m.simpleTreeProof)
               && (m.input == input <==> Survives(input[0]) && Survives(input[1]) && Survives(input[2]))
  {
    hide BlockHash, ToNat, MinBytes, TendermintHeader.MerkleRoot;
    var header := chain(target);
    SimpleTreeProofCorrect(H, header);
    var built := BuildMessage(H, chain, trusted, target, input, zkProof).value;
    ConvertProofExact(built.simpleTreeProof, 6);
    assert built.simpleTreeProof[..6] == built.simpleTreeProof;
    assert header.appHash[..32] == header.appHash;
    assert built.untrustedBlockHash[..32] == built.untrustedBlockHash;
    MinBytesAsBytes32(input[0]);
    MinBytesAsBytes32(input[1]);
    MinBytesAsBytes32(input[2]);
    var sent := [ToNat(Bytes32(built.input[0])), ToNat(Bytes32(built.input[1])), ToNat(Bytes32(built.input[2]))];
    assert sent == input <==> sent[0] == input[0] && sent[1] == input[1] && sent[2] == input[2];
  }

  /** For a message about an unexpired stored block, whose header proof is right, the public
      inputs decide. */
  lemma InputsDecide(cfg: Config, st: State, now: nat, id: string, m: UpdateStateInput)
    requires m.trustedHeight < m.untrustedHeight
    requires st.Consensus(id, m.trustedHeight).blockHash != Zeros(32)
    requires now <= st.Consensus(id, m.trustedHeight).timestamp + st.Client(id).trustingPeriod
    requires m.untrustedBlockHash == TendermintHeader.MerkleRoot(cfg.H, m.timestamp, m.appHash, m.simpleTreeProof)
    ensures CheckUpdate(cfg, st, now, id, m).Ok? <==>
            m.input == PublicInputs(cfg, MessageClaim(m, st.Consensus(id, m.trustedHeight).blockHash))
  {
    hide PublicInputs, TendermintHeader.MerkleRoot, CheckInputs;
    InputsExact(cfg, st.Consensus(id, m.trustedHeight).blockHash, m);
  }

  /** Relayer and contract agree, exactly when no public input loses leading zeros: with matching
      digests and an unexpired trusted block, the update the relayer sends is accepted if and only if
      the verifier takes the proof and each of the three inputs is zero or has a nonzero top byte. */
  lemma RelayerAgreement(cfg: Config, st: State, now: nat, id: string, chain: Chain,
                         stepDigest: Bytes, skipDigest: Bytes,
                         trusted: uint64, target: uint64, zkProof: Bytes)
    requires trusted < target
    requires chain(target).validatorsHash != [] && |chain(target).appHash| == 32
    requires cfg.stepVerifierDigest == ToNat(Bytes32(stepDigest))
    requires cfg.skipVerifierDigest == ToNat(Bytes32(skipDigest))
    requires st.Consensus(id, trusted).blockHash == BlockHash(cfg.H, chain(trusted)) != Zeros(32)
    requires now <= st.Consensus(id, trusted).timestamp + st.Client(id).trustingPeriod
    ensures var input := ExpectedInputs(cfg.H, chain, stepDigest, skipDigest, trusted, target);
            var built := BuildMessage(cfg.H, chain, trusted, target, input, zkProof);
            && built.Ok? && Convert(built.value).Ok?
            && var (m, proof) := Convert(built.value).value;
               Update(cfg, st, now, id, m, proof).Ok? <==>
               cfg.accepts(zkProof, m.input) && Survives(input[0]) && Survives(input[1]) && Survives(input[2])
  {
    hide ExpectedInputs, BuildMessage, Convert, Survives, PublicInputs, BlockHash, ToNat, CheckUpdate;
    hide Bytes32, MessageClaim, TendermintHeader.MerkleRoot;
    var input := ExpectedInputs(cfg.H, chain, stepDigest, skipDigest, trusted, target);
    MessageConverts(cfg.H, chain, trusted, target, input, zkProof);
    var m := Convert(BuildMessage(cfg.H, chain, trusted, target, input, zkProof).value).value.0;
    ExpectedInputsAgree(cfg, chain, stepDigest, skipDigest, trusted, target, m);
    InputsDecide(cfg, st, now, id, m);
  }

  /** With a step digest that is not zero but starts with a zero byte no step message is accepted,
      whatever the headers and the hash function are. */
  lemma LeadingZeroRejected(cfg: Config, st: State, now: nat, id: string, chain: Chain,
                            stepDigest: Bytes, skipDigest: Bytes, trusted: uint64, zkProof: Bytes)
    requires trusted + 1 < TWO64
    requires |stepDigest| == 32 && stepDigest[0] == 0 && stepDigest != Zeros(32)
    requires chain(trusted + 1).validatorsHash != [] && |chain(trusted + 1).appHash| == 32
    requires cfg.stepVerifierDigest == ToNat(Bytes32(stepDigest))
    requires cfg.skipVerifierDigest == ToNat(Bytes32(skipDigest))
    requires st.Consensus(id, trusted).blockHash == BlockHash(cfg.H, chain(trusted)) != Zeros(32)
    requires now <= st.Consensus(id, trusted).timestamp + st.Client(id).trustingPeriod
    ensures var input := ExpectedInputs(cfg.H, chain, stepDigest, skipDigest, trusted, trusted + 1);
            var built := BuildMessage(cfg.H, chain, trusted, trusted + 1, input, zkProof);
            && built.Ok? && Convert(built.value).Ok?
            && var (m, proof) := Convert(built.value).value;
               Update(cfg, st, now, id, m, proof).Revert?
  {
    hide ExpectedInputs, BuildMessage, Convert, Survives, BlockHash, ToNat, Update;
    RelayerAgreement(cfg, st, now, id, chain, stepDigest, skipDigest, trusted, trusted + 1, zkProof);
    FirstStepInput(cfg.H, chain, stepDigest, skipDigest, trusted);
    LeadingZeroDoesNotSurvive(stepDigest);
  }

  lemma FirstStepInput(H: Hash, chain: Chain, stepDigest: Digest, skipDigest: Bytes, trusted: uint64)
    requires trusted + 1 < TWO64
    ensures ExpectedInputs(H, chain, stepDigest, skipDigest, trusted, trusted + 1)[0] == ToNat(stepDigest)
  {
    assert stepDigest[..32] == stepDigest;
    hide ToNat, BlockHash, Masked, StepString;
  }

  lemma LeadingZeroDoesNotSurvive(d: Digest)
    requires d[0] == 0 && d != Zeros(32)
    ensures !Survives(ToNat(d))
  {
    hide ToNat, Pow256;
    ToNatHead(d);
    ToNatBound(d[1..]);
    Pow256Values();
    if ToNat(d) == 0 {
      FromNatToNat(d);
      FromZero(32);
    }
  }
}
