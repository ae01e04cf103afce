/** contracts/TendermintZKLightClient.sol: the two mappings, the calls that write them and the
    calls that answer questions from them. */
module LightClient {
  import opened Bytes
  import opened ProtoWire
  import opened BigEndian
  import opened TreeVerifier
  import opened AppState
  import TendermintHeader

  // ------------------------------------------------------------------------------ data

  datatype ClientState = ClientState(latestHeight: uint64, trustingPeriod: uint64)

  datatype ConsensusState = ConsensusState(blockHash: Digest, appHash: Digest, timestamp: uint64)

  datatype UpdateStateInputData = UpdateStateInput(
    trustedHeight: uint64,
    untrustedHeight: uint64,
    untrustedBlockHash: Digest,
    timestamp: uint64,
    appHash: Digest,
    simpleTreeProof: seq<Digest>,
    input: seq<nat>)

  /** Six sibling hashes and three public inputs. */
  type UpdateStateInput = m: UpdateStateInputData | |m.simpleTreeProof| == 6 && |m.input| == 3
    witness UpdateStateInput(0, 0, Zeros(32), 0, Zeros(32),
                             [Zeros(32), Zeros(32), Zeros(32), Zeros(32), Zeros(32), Zeros(32)], [0, 0, 0])

  datatype Height = Height(revisionNumber: uint64, revisionHeight: uint64)

  /** The decoded arguments of initializeClient. */
  datatype ProtoClientState = ProtoClientState(
    stepVerifierDigest: Bytes, skipVerifierDigest: Bytes, trustingPeriod: uint64, frozen: bool, latestHeight: Height)

  datatype ProtoConsensusState = ProtoConsensusState(blockHash: Bytes, appHash: Bytes, timestamp: uint64)

  /** What the constructor fixes. `accepts` is the zero-knowledge verifier: which proof bytes it
      takes for which public inputs. */
  datatype Config = Config(
    H: Hash,
    ibcHandler: nat,
    revisionNumber: uint64,
    stepVerifierDigest: nat,
    skipVerifierDigest: nat,
    accepts: (Bytes, seq<nat>) -> bool)

  /** The contents of the two mappings. An entry that was never written reads as zero. */
  datatype State = State(
    clientStates: map<string, ClientState>,
    consensusStates: map<(string, uint64), ConsensusState>)
  {
    function Client(id: string): ClientState {
      if id in clientStates then clientStates[id] else ClientState(0, 0)
    }

    function Consensus(id: string, height: uint64): ConsensusState {
      if (id, height) in consensusStates then consensusStates[(id, height)]
      else ConsensusState(Zeros(32), Zeros(32), 0)
    }
  }

  const EMPTY_STATE: State := State(map[], map[])

  // ------------------------------------------------------------------------ initializeClient

  function CheckInitialize(cfg: Config, sender: nat, cs: ProtoClientState, cons: ProtoConsensusState): Outcome<()> {
    if sender != cfg.ibcHandler then Revert(OnlyIBC)
    else if |cs.stepVerifierDigest| != 32 then Revert(InvalidStepVerifierDigest)
    else if |cs.skipVerifierDigest| != 32 then Revert(InvalidSkipVerifierDigest)
    else if ToNat(cs.stepVerifierDigest) != cfg.stepVerifierDigest then Revert(InvalidStepVerifierDigest)
    else if ToNat(cs.skipVerifierDigest) != cfg.skipVerifierDigest then Revert(InvalidSkipVerifierDigest)
    else if cs.trustingPeriod == 0 then Revert(InvalidTrustingPeriod)
    else if cs.frozen then Revert(ClientStateFrozen)
    else if cs.latestHeight.revisionHeight == 0 then Revert(InvalidRevisionHeight)
    else if cs.latestHeight.revisionNumber != cfg.revisionNumber then Revert(InvalidRevisionNumber)
    else if |cons.blockHash| != 32 then Revert(InvalidBlockHash)
    else if |cons.appHash| != 32 then Revert(InvalidAppHash)
    else if cons.timestamp == 0 then Revert(InvalidTimestamp)
    else Ok(())
  }

  function Initialize(cfg: Config, st: State, sender: nat, id: string, cs: ProtoClientState, cons: ProtoConsensusState)
    : Outcome<State>
  {
    var _ :- CheckInitialize(cfg, sender, cs, cons);
    var height := cs.latestHeight.revisionHeight;
    Ok(State(st.clientStates[id := ClientState(height, cs.trustingPeriod)],
             st.consensusStates[(id, height) := ConsensusState(cons.blockHash, cons.appHash, cons.timestamp)]))
  }

  // ----------------------------------------------------------------------------- updateState

  /** A hash cut to 253 bits, as the circuits produce it. */
  function Truncated(H: Hash, b: Bytes): nat {
    ToNat(H(b)) % TWO253
  }

  /** abi.encodePacked(height, blockHash). */
  function StepString(height: uint64, blockHash: Digest): Bytes {
    FromNat(height, 8) + blockHash
  }

  /** abi.encodePacked(trustedHeight, blockHash, untrustedHeight). */
  function SkipString(height: uint64, blockHash: Digest, target: uint64): Bytes {
    FromNat(height, 8) + blockHash + FromNat(target, 8)
  }

  /** The public inputs must commit to the stored trusted block and to the new block. */
  function CheckInputs(cfg: Config, trusted: Digest, m: UpdateStateInput): Outcome<()> {
    var _ :-
      if m.untrustedHeight - m.trustedHeight == 1 then
        if m.input[0] != cfg.stepVerifierDigest then Revert(UnexpectedStepVerifierDigest)
        else if m.input[1] != Truncated(cfg.H, StepString(m.trustedHeight, trusted)) then Revert(UnexpectedStepInput)
        else Ok(())
      else
        if m.input[0] != cfg.skipVerifierDigest then Revert(UnexpectedSkipVerifierDigest)
        else if m.input[1] != Truncated(cfg.H, SkipString(m.trustedHeight, trusted, m.untrustedHeight))
        then Revert(UnexpectedSkipInput)
        else Ok(());
    if m.input[2] != Truncated(cfg.H, m.untrustedBlockHash) then Revert(UnexpectedOutput) else Ok(())
  }

  function CheckUpdate(cfg: Config, st: State, now: nat, id: string, m: UpdateStateInput): Outcome<()> {
    if m.untrustedHeight <= m.trustedHeight then Revert(InvalidUpdateHeight)
    else
      var trusted := st.Consensus(id, m.trustedHeight);
      if trusted.blockHash == Zeros(32) then Revert(ConsensusStateNotFound)
      else if now > trusted.timestamp + st.Client(id).trustingPeriod then Revert(OldConsensusExpired)
      else
        var _ :- CheckInputs(cfg, trusted.blockHash, m);
        if m.untrustedBlockHash != TendermintHeader.MerkleRoot(cfg.H, m.timestamp, m.appHash, m.simpleTreeProof)
        then Revert(InvalidSimpleTreeProof)
        else Ok(())
  }

  /** The latest height of a client, raised to `height` if it is lower. */
  function RaiseLatest(clients: map<string, ClientState>, id: string, height: uint64): map<string, ClientState> {
    var client := if id in clients then clients[id] else ClientState(0, 0);
    if client.latestHeight < height then clients[id := client.(latestHeight := height)] else clients
  }

  function ApplyUpdate(st: State, id: string, m: UpdateStateInput): State {
    State(RaiseLatest(st.clientStates, id, m.untrustedHeight),
          st.consensusStates[(id, m.untrustedHeight) := ConsensusState(m.untrustedBlockHash, m.appHash, m.timestamp)])
  }

  /** A call of the update entry point: the proof is checked first. */
  function Update(cfg: Config, st: State, now: nat, id: string, m: UpdateStateInput, proof: Bytes): Outcome<State> {
    var _ :- Require(cfg.accepts(proof, m.input), ProofInvalid);
    var _ :- CheckUpdate(cfg, st, now, id, m);
    Ok(ApplyUpdate(st, id, m))
  }

  // -------------------------------------------------------------------------- state questions

  function VerifyMembership(cfg: Config, st: State, id: string, height: Height, e0: ExistenceProof, e1: ExistenceProof,
                            prefix: Bytes, path: Bytes, value: Bytes): Outcome<bool>
  {
    var _ :- Require(height.revisionNumber == cfg.revisionNumber, RequireFailed);
    var root :- MembershipAppHash(cfg.H, e0, e1, prefix, path, value);
    var _ :- Require(root == st.Consensus(id, height.revisionHeight).appHash, RequireFailed);
    Ok(true)
  }

  function VerifyNonMembership(cfg: Config, st: State, id: string, height: Height,
                               p0: NonExistenceProof, p1: ExistenceProof, prefix: Bytes, path: Bytes): Outcome<bool>
  {
    var _ :- Require(height.revisionNumber == cfg.revisionNumber, RequireFailed);
    var _ :- Require(p0.key == path, RequireFailed);
    var _ :- Require(p1.key == prefix, RequireFailed);
    var root :- AbsenceAppHash(cfg.H, p0, p1, prefix);
    var _ :- Require(root == st.Consensus(id, height.revisionHeight).appHash, RequireFailed);
    Ok(true)
  }

  // ------------------------------------------------------------------------------ the contract

  class TendermintZKLightClient {
    const cfg: Config
    var clientStates: map<string, ClientState>
    var consensusStates: map<(string, uint64), ConsensusState>

    constructor (cfg: Config)
      ensures this.cfg == cfg && Contents() == EMPTY_STATE
    {
      this.cfg := cfg;
      clientStates, consensusStates := map[], map[];
    }

    function Contents(): State
      reads this
    {
      State(clientStates, consensusStates)
    }

    /** A revert undoes every write of a call. */
    method InitializeClient(sender: nat, id: string, cs: ProtoClientState, cons: ProtoConsensusState)
      returns (r: Outcome<Height>)
      modifies this
      ensures match Initialize(cfg, old(Contents()), sender, id, cs, cons)
              case Ok(st) => r == Ok(cs.latestHeight) && Contents() == st
              case Revert(reason) => r == Revert(reason) && Contents() == old(Contents())
    {
      var _ :- CheckInitialize(cfg, sender, cs, cons);
      var height := cs.latestHeight.revisionHeight;
      consensusStates := consensusStates[(id, height) := ConsensusState(cons.blockHash, cons.appHash, cons.timestamp)];
      clientStates := clientStates[id := ClientState(height, cs.trustingPeriod)];
      return Ok(cs.latestHeight);
    }

    method UpdateClient(now: nat, id: string, m: UpdateStateInput, proof: Bytes) returns (r: Outcome<seq<Height>>)
      modifies this
      ensures match Update(cfg, old(Contents()), now, id, m, proof)
              case Ok(st) => r == Ok([Height(cfg.revisionNumber, m.untrustedHeight)]) && Contents() == st
              case Revert(reason) => r == Revert(reason) && Contents() == old(Contents())
    {
      var _ :- Require(cfg.accepts(proof, m.input), ProofInvalid);
      r := UpdateState(now, id, m);
    }

    method UpdateState(now: nat, id: string, m: UpdateStateInput) returns (r: Outcome<seq<Height>>)
      modifies this
      ensures match CheckUpdate(cfg, old(Contents()), now, id, m)
              case Ok(_) => r == Ok([Height(cfg.revisionNumber, m.untrustedHeight)])
                         && Contents() == ApplyUpdate(old(Contents()), id, m)
              case Revert(reason) => r == Revert(reason) && Contents() == old(Contents())
    {
      if m.untrustedHeight <= m.trustedHeight {
        return Revert(InvalidUpdateHeight);
      }
      var clientState := Contents().Client(id);
      var consensusState := Contents().Consensus(id, m.trustedHeight);
      if consensusState.blockHash == Zeros(32) {
        return Revert(ConsensusStateNotFound);
      }
      if now > consensusState.timestamp + clientState.trustingPeriod {
        return Revert(OldConsensusExpired);
      }
      var _ :- CheckInputs(cfg, consensusState.blockHash, m);
      if m.untrustedBlockHash != TendermintHeader.MerkleRoot(cfg.H, m.timestamp, m.appHash, m.simpleTreeProof) {
        return Revert(InvalidSimpleTreeProof);
      }
      consensusStates :=
        consensusStates[(id, m.untrustedHeight) := ConsensusState(m.untrustedBlockHash, m.appHash, m.timestamp)];
      if clientState.latestHeight < m.untrustedHeight {
        clientStates := clientStates[id := clientState.(latestHeight := m.untrustedHeight)];
      }
      return Ok([Height(cfg.revisionNumber, m.untrustedHeight)]);
    }

    method Membership(id: string, height: Height, e0: ExistenceProof, e1: ExistenceProof,
                      prefix: Bytes, path: Bytes, value: Bytes) returns (r: Outcome<bool>)
      ensures r == VerifyMembership(cfg, Contents(), id, height, e0, e1, prefix, path, value)
    {
      var _ :- Require(height.revisionNumber == cfg.revisionNumber, RequireFailed);
      var ibcCommitmentRoot :- VerifyMembershipIAVLSpec(cfg.H, e0.prefix, path, value, e0.path);
      var root :- VerifyMembershipTendermintSpec(cfg.H, e1.prefix, prefix, ibcCommitmentRoot, e1.path);
      var _ :- Require(root == Contents().Consensus(id, height.revisionHeight).appHash, RequireFailed);
      return Ok(true);
    }

    method NonMembership(id: string, height: Height, p0: NonExistenceProof, p1: ExistenceProof,
                         prefix: Bytes, path: Bytes) returns (r: Outcome<bool>)
      ensures r == VerifyNonMembership(cfg, Contents(), id, height, p0, p1, prefix, path)
    {
      var _ :- Require(height.revisionNumber == cfg.revisionNumber, RequireFailed);
      var _ :- Require(p0.key == path, RequireFailed);
      var _ :- Require(p1.key == prefix, RequireFailed);
      var ibcCommitmentRoot :- VerifyNonMembershipIAVL(cfg.H, p0);
      var root :- VerifyMembershipTendermintSpec(cfg.H, p1.prefix, prefix, ibcCommitmentRoot, p1.path);
      var _ :- Require(root == Contents().Consensus(id, height.revisionHeight).appHash, RequireFailed);
      return Ok(true);
    }
  }
}
