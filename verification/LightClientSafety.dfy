/** What every run of the light client keeps: everything it stores is the chain's own, and the
    heights behave. */
module LightClientSafety {
  import opened Arithmetic
  import opened Bytes
  import opened ProtoWire
  import opened BigEndian
  import opened LightClient
  import opened RelayerTree
  import TendermintHeader

  // ------------------------------------------------------------------------------- the chain

  /** The header of each height. */
  type Chain = uint64 -> Header

  /** Every header has validators and a 32-byte app hash. */
  ghost predicate ChainValid(chain: Chain) {
    forall h: uint64 :: chain(h).validatorsHash != [] && |chain(h).appHash| == 32
  }

  function BlockHashAt(H: Hash, chain: Chain, h: uint64): Digest {
    BlockHash(H, chain(h))
  }

  /** What the client should store for a height. */
  function Genuine(H: Hash, chain: Chain, h: uint64): ConsensusState
    requires |chain(h).appHash| == 32
  {
    ConsensusState(BlockHash(H, chain(h)), chain(h).appHash, chain(h).time)
  }

  // ------------------------------------------------------------------------------- the proofs

  /** What a step proof and a skip proof claim: if the block at `height` has hash `from`, the
      block one higher, or at `target`, has hash `to`. */
  datatype Claim =
    | Step(height: uint64, from: Digest, to: Digest)
    | Skip(height: uint64, from: Digest, target: uint64, to: Digest)

  function ClaimString(c: Claim): Bytes {
    match c
    case Step(height, from, _) => StepString(height, from)
    case Skip(height, from, target, _) => SkipString(height, from, target)
  }

  /** The public inputs of a proof of the claim. */
  function PublicInputs(cfg: Config, c: Claim): seq<nat> {
    [ if c.Step? then cfg.stepVerifierDigest else cfg.skipVerifierDigest,
      Truncated(cfg.H, ClaimString(c)),
      Truncated(cfg.H, c.to) ]
  }

  ghost predicate TrueClaim(H: Hash, chain: Chain, c: Claim) {
    match c
    case Step(height, from, to) =>
      height + 1 < TWO64 && (BlockHashAt(H, chain, height) == from ==> BlockHashAt(H, chain, height + 1) == to)
    case Skip(height, from, target, to) =>
      BlockHashAt(H, chain, height) == from ==> BlockHashAt(H, chain, target) == to
  }

  /** The assumption on the verifier: an accepted proof proves a true claim with those public
      inputs, the one `extract` finds. */
  ghost predicate SoundVerifier(cfg: Config, chain: Chain, extract: (Bytes, seq<nat>) -> Claim) {
    forall proof, input :: cfg.accepts(proof, input) ==>
      && input == PublicInputs(cfg, extract(proof, input))
      && TrueClaim(cfg.H, chain, extract(proof, input))
  }

  /** No two distinct strings agree on the 253 bits the public inputs keep. */
  ghost predicate TruncatedCollisionFree(H: Hash, strings: set<Bytes>) {
    forall a, b {:trigger a in strings, b in strings} ::
      a in strings && b in strings && Truncated(H, a) == Truncated(H, b) ==> a == b
  }

  /** The claim the contract takes a message to make about its stored block. */
  function MessageClaim(m: UpdateStateInput, trusted: Digest): Claim {
    if m.untrustedHeight - m.trustedHeight == 1
    then Step(m.trustedHeight, trusted, m.untrustedBlockHash)
    else Skip(m.trustedHeight, trusted, m.untrustedHeight, m.untrustedBlockHash)
  }

  /** The input checks accept exactly the public inputs of that claim. */
  lemma InputsExact(cfg: Config, trusted: Digest, m: UpdateStateInput)
    ensures CheckInputs(cfg, trusted, m).Ok? <==> m.input == PublicInputs(cfg, MessageClaim(m, trusted))
  {
    var c := MessageClaim(m, trusted);
    if m.input[0] == PublicInputs(cfg, c)[0] && m.input[1] == PublicInputs(cfg, c)[1]
       && m.input[2] == PublicInputs(cfg, c)[2] {
      assert m.input == PublicInputs(cfg, c);
    }
  }

  /** The input checks on literal strings: eight bytes of the trusted height, the trusted block hash
      and, for a skip, eight bytes of the new height. */
  lemma InputsLiteral(cfg: Config, trusted: Digest, m: UpdateStateInput)
    ensures CheckInputs(cfg, trusted, m).Ok? <==>
            if m.untrustedHeight == m.trustedHeight + 1 then
              && m.input[0] == cfg.stepVerifierDigest
              && m.input[1] == ToNat(cfg.H(FromNat(m.trustedHeight, 8) + trusted)) % TWO253
              && m.input[2] == ToNat(cfg.H(m.untrustedBlockHash)) % TWO253
            else
              && m.input[0] == cfg.skipVerifierDigest
              && m.input[1] ==
                 ToNat(cfg.H(FromNat(m.trustedHeight, 8) + trusted + FromNat(m.untrustedHeight, 8))) % TWO253
              && m.input[2] == ToNat(cfg.H(m.untrustedBlockHash)) % TWO253
  {
  }

  /** What the strings spell, read back. */
  lemma StringsReadBack(height: uint64, hash: Digest, target: uint64)
    ensures var s := StepString(height, hash);
            |s| == 40 && ToNat(s[..8]) == height && s[8..] == hash
    ensures var s := SkipString(height, hash, target);
            |s| == 48 && ToNat(s[..8]) == height && s[8..40] == hash && ToNat(s[40..]) == target
  {
    hide ToNat, FromNat;
    var s, t := StepString(height, hash), SkipString(height, hash, target);
    assert s[..8] == FromNat(height, 8) == t[..8];
    assert s[8..] == hash == t[8..40] && t[40..] == FromNat(target, 8);
    EightBytes(height);
    EightBytes(target);
  }

  lemma EightBytes(h: uint64)
    ensures ToNat(FromNat(h, 8)) == h
  {
    hide Pow256, ToNat, FromNat;
    Pow256Values();
    ToNatFromNat(h, 8);
    DivModUnique(h, Pow256(8), 0, h);
  }

  /** Claims are determined by the strings the public inputs commit to. */
  lemma ClaimDetermined(c: Claim, d: Claim)
    requires ClaimString(c) == ClaimString(d) && c.to == d.to
    ensures c == d
  {
    var a, b := FromNat(c.height, 8), FromNat(d.height, 8);
    Pow256Values();
    assert |ClaimString(c)| == if c.Step? then 40 else 48;
    assert |ClaimString(d)| == if d.Step? then 40 else 48;
    if c.Step? {
      SplitConcat(a, c.from, b, d.from);
    } else {
      SplitConcat(a + c.from, FromNat(c.target, 8), b + d.from, FromNat(d.target, 8));
      SplitConcat(a, c.from, b, d.from);
      FromNatInjective(c.target, d.target, 8);
    }
    FromNatInjective(c.height, d.height, 8);
  }

  // ------------------------------------------------------------------------------------ runs

  datatype Call =
    | CallInitialize(sender: nat, id: string, cs: ProtoClientState, cons: ProtoConsensusState)
    | CallUpdate(now: nat, id: string, m: UpdateStateInput, proof: Bytes)

  function Attempt(cfg: Config, st: State, call: Call): Outcome<State> {
    match call
    case CallInitialize(sender, id, cs, cons) => Initialize(cfg, st, sender, id, cs, cons)
    case CallUpdate(now, id, m, proof) => Update(cfg, st, now, id, m, proof)
  }

  /** A reverted call changes nothing. */
  function Exec(cfg: Config, st: State, call: Call): State {
    match Attempt(cfg, st, call)
    case Ok(st') => st'
    case Revert(_) => st
  }

  function Run(cfg: Config, st: State, calls: seq<Call>): State
    decreases |calls|
  {
    if calls == [] then st
    else Exec(cfg, Run(cfg, st, calls[..|calls| - 1]), calls[|calls| - 1])
  }

  /** The strings behind the public inputs of an update: those the contract hashes and those of
      the claim the proof was made for. */
  ghost function ClaimStrings(st: State, call: Call, extract: (Bytes, seq<nat>) -> Claim): set<Bytes> {
    match call
    case CallInitialize(_, _, _, _) => {}
    case CallUpdate(_, id, m, proof) =>
      var c := MessageClaim(m, st.Consensus(id, m.trustedHeight).blockHash);
      var w := extract(proof, m.input);
      {ClaimString(c), c.to, ClaimString(w), w.to}
  }

  /** The strings hashed for the block hash of an update, by the contract and by the chain. */
  ghost function HeaderStrings(H: Hash, chain: Chain, call: Call): set<Bytes>
    requires ChainValid(chain)
  {
    match call
    case CallInitialize(_, _, _, _) => {}
    case CallUpdate(_, id, m, _) =>
      var header := chain(m.untrustedHeight);
      TendermintHeader.HashedByRoot(H, m.timestamp, m.appHash, m.simpleTreeProof) +
      TendermintHeader.HashedByRoot(H, header.time, header.appHash, GetSimpleTreeProof(H, header).value)
  }

  /** The assumptions under which runs are judged: a sound verifier, no collision among the
      strings in play. */
  datatype Assumptions = Assumptions(
    chain: Chain,
    extract: (Bytes, seq<nat>) -> Claim,
    claimStrings: set<Bytes>,
    headerStrings: set<Bytes>)
  {
    ghost predicate Hold(cfg: Config) {
      && ChainValid(chain)
      && SoundVerifier(cfg, chain, extract)
      && TruncatedCollisionFree(cfg.H, claimStrings)
      && CollisionFree(cfg.H, headerStrings)
    }

    /** The strings of a call are in play, and an initialization that is accepted is genuine. */
    ghost predicate Cover(cfg: Config, st: State, call: Call)
      requires ChainValid(chain)
    {
      match call
      case CallInitialize(_, id, cs, cons) =>
        Attempt(cfg, st, call).Ok? ==>
          ConsensusState(cons.blockHash, cons.appHash, cons.timestamp)
          == Genuine(cfg.H, chain, cs.latestHeight.revisionHeight)
      case CallUpdate(_, _, _, _) =>
        ClaimStrings(st, call, extract) <= claimStrings && HeaderStrings(cfg.H, chain, call) <= headerStrings
    }

    ghost predicate CoverRun(cfg: Config, st: State, calls: seq<Call>)
      requires ChainValid(chain)
    {
      forall i :: 0 <= i < |calls| ==> Cover(cfg, Run(cfg, st, calls[..i]), calls[i])
    }
  }

  // ---------------------------------------------------------------------------------- safety

  /** Everything stored is the chain's own. */
  ghost predicate Safe(H: Hash, chain: Chain, st: State)
    requires ChainValid(chain)
  {
    forall id, h :: (id, h) in st.consensusStates ==> st.consensusStates[(id, h)] == Genuine(H, chain, h)
  }

  lemma DigestIs(b: Bytes, v: nat)
    requires v < TWO256
    ensures |b| == 32 && ToNat(b) == v <==> b == FromNat(v, 32)
  {
    hide Pow256, ToNat, FromNat;
    Pow256Values();
    ToNatFromNat(v, 32);
    DivModUnique(v, Pow256(32), 0, v);
    FromNatToNat(b);
  }

  /** An initialization is accepted exactly when the handler sends it, both verifier digests are
      the big-endian bytes of the contract's, and the rest is well-formed. */
  lemma InitializeExact(cfg: Config, st: State, sender: nat, id: string,
                        cs: ProtoClientState, cons: ProtoConsensusState)
    requires cfg.stepVerifierDigest < TWO256 && cfg.skipVerifierDigest < TWO256
    ensures Initialize(cfg, st, sender, id, cs, cons).Ok? <==>
            && sender == cfg.ibcHandler
            && cs.stepVerifierDigest == FromNat(cfg.stepVerifierDigest, 32)
            && cs.skipVerifierDigest == FromNat(cfg.skipVerifierDigest, 32)
            && cs.trustingPeriod > 0 && !cs.frozen
            && cs.latestHeight.revisionHeight > 0 && cs.latestHeight.revisionNumber == cfg.revisionNumber
            && |cons.blockHash| == 32 && |cons.appHash| == 32 && cons.timestamp > 0
  {
    hide ToNat, FromNat;
    DigestIs(cs.stepVerifierDigest, cfg.stepVerifierDigest);
    DigestIs(cs.skipVerifierDigest, cfg.skipVerifierDigest);
  }

  /** Which reason a refused initialization reverts with: sender, digests, client state, consensus
      state, in this order. */
  lemma InitializeReason(cfg: Config, st: State, sender: nat, id: string,
                         cs: ProtoClientState, cons: ProtoConsensusState)
    requires cfg.stepVerifierDigest < TWO256 && cfg.skipVerifierDigest < TWO256
    ensures var r := Initialize(cfg, st, sender, id, cs, cons);
            var step, skip := FromNat(cfg.stepVerifierDigest, 32), FromNat(cfg.skipVerifierDigest, 32);
            var digestsMatch := cs.stepVerifierDigest == step && cs.skipVerifierDigest == skip;
            && (r == Revert(OnlyIBC) <==> sender != cfg.ibcHandler)
            && (sender == cfg.ibcHandler && !digestsMatch ==>
                  r == Revert(if |cs.stepVerifierDigest| != 32
                                 || (|cs.skipVerifierDigest| == 32 && cs.stepVerifierDigest != step)
                              then InvalidStepVerifierDigest else InvalidSkipVerifierDigest))
            && (sender == cfg.ibcHandler && digestsMatch && r.Revert? ==>
                  r == Revert(if cs.trustingPeriod == 0 then InvalidTrustingPeriod
                              else if cs.frozen then ClientStateFrozen
                              else if cs.latestHeight.revisionHeight == 0 then InvalidRevisionHeight
                              else if cs.latestHeight.revisionNumber != cfg.revisionNumber then InvalidRevisionNumber
                              else if |cons.blockHash| != 32 then InvalidBlockHash
                              else if |cons.appHash| != 32 then InvalidAppHash
                              else InvalidTimestamp))
  {
    hide ToNat, FromNat;
    DigestIs(cs.stepVerifierDigest, cfg.stepVerifierDigest);
    DigestIs(cs.skipVerifierDigest, cfg.skipVerifierDigest);
  }

  /** An update is accepted exactly when its proof is, it moves up from a stored and unexpired
      block, its public inputs are those of the claim it makes about that block, and its header
      proof leads to its block hash. */
  lemma UpdateExact(cfg: Config, st: State, now: nat, id: string, m: UpdateStateInput, proof: Bytes)
    ensures var trusted := st.Consensus(id, m.trustedHeight);
            Update(cfg, st, now, id, m, proof).Ok? <==>
            && cfg.accepts(proof, m.input)
            && m.trustedHeight < m.untrustedHeight
            && trusted.blockHash != Zeros(32)
            && now <= trusted.timestamp + st.Client(id).trustingPeriod
            && m.input == PublicInputs(cfg, MessageClaim(m, trusted.blockHash))
            && m.untrustedBlockHash == TendermintHeader.MerkleRoot(cfg.H, m.timestamp, m.appHash, m.simpleTreeProof)
  {
    hide TendermintHeader.MerkleRoot, CheckInputs, PublicInputs;
    InputsExact(cfg, st.Consensus(id, m.trustedHeight).blockHash, m);
  }

  /** The message moves up from a stored block that has not expired. */
  predicate FromLiveBlock(st: State, now: nat, id: string, m: UpdateStateInput) {
    && m.trustedHeight < m.untrustedHeight
    && st.Consensus(id, m.trustedHeight).blockHash != Zeros(32)
    && now <= st.Consensus(id, m.trustedHeight).timestamp + st.Client(id).trustingPeriod
  }

  /** Which reason a refused update reverts with: proof, heights, trusted block, expiry, the three
      inputs and the header proof, in this order. */
  lemma UpdateReason(cfg: Config, st: State, now: nat, id: string, m: UpdateStateInput, proof: Bytes)
    ensures Update(cfg, st, now, id, m, proof) == Revert(ProofInvalid) <==> !cfg.accepts(proof, m.input)
    ensures cfg.accepts(proof, m.input) && !FromLiveBlock(st, now, id, m) ==>
              Update(cfg, st, now, id, m, proof) ==
              Revert(if m.untrustedHeight <= m.trustedHeight then InvalidUpdateHeight
                     else if st.Consensus(id, m.trustedHeight).blockHash == Zeros(32) then ConsensusStateNotFound
                     else OldConsensusExpired)
    ensures cfg.accepts(proof, m.input) && FromLiveBlock(st, now, id, m) ==>
              var r, step := Update(cfg, st, now, id, m, proof), m.untrustedHeight == m.trustedHeight + 1;
              var input := PublicInputs(cfg, MessageClaim(m, st.Consensus(id, m.trustedHeight).blockHash));
              if m.input[0] != input[0] then
                r == Revert(if step then UnexpectedStepVerifierDigest else UnexpectedSkipVerifierDigest)
              else if m.input[1] != input[1] then
                r == Revert(if step then UnexpectedStepInput else UnexpectedSkipInput)
              else if m.input[2] != input[2] then r == Revert(UnexpectedOutput)
              else r.Ok? || r == Revert(InvalidSimpleTreeProof)
  {
    hide TendermintHeader.MerkleRoot, Truncated;
  }

  /** What an accepted update writes: one consensus state and, if the height is higher, the latest
      height of the client. Everything else reads as before. */
  lemma UpdateEffect(cfg: Config, st: State, now: nat, id: string, m: UpdateStateInput, proof: Bytes)
    requires Update(cfg, st, now, id, m, proof).Ok?
    ensures var st' := Update(cfg, st, now, id, m, proof).value;
            && st'.Consensus(id, m.untrustedHeight) == ConsensusState(m.untrustedBlockHash, m.appHash, m.timestamp)
            && (forall i, h :: (i, h) in st'.consensusStates <==>
                               (i, h) in st.consensusStates || (i == id && h == m.untrustedHeight))
            && (forall i, h: uint64 :: i != id || h != m.untrustedHeight ==> st'.Consensus(i, h) == st.Consensus(i, h))
            && st'.Client(id).trustingPeriod == st.Client(id).trustingPeriod
            && st'.Client(id).latestHeight ==
               (if st.Client(id).latestHeight < m.untrustedHeight then m.untrustedHeight
                else st.Client(id).latestHeight)
            && (forall i :: i != id ==> st'.Client(i) == st.Client(i))
  {
    hide CheckUpdate;
  }

  /** What an accepted initialization writes. */
  lemma InitializeEffect(cfg: Config, st: State, sender: nat, id: string,
                         cs: ProtoClientState, cons: ProtoConsensusState)
    requires Initialize(cfg, st, sender, id, cs, cons).Ok?
    ensures var st', height := Initialize(cfg, st, sender, id, cs, cons).value, cs.latestHeight.revisionHeight;
            && |cons.blockHash| == 32 && |cons.appHash| == 32
            && st'.Consensus(id, height) == ConsensusState(cons.blockHash, cons.appHash, cons.timestamp)
            && (forall i, h :: (i, h) in st'.consensusStates <==>
                               (i, h) in st.consensusStates || (i == id && h == height))
            && (forall i, h: uint64 :: i != id || h != height ==> st'.Consensus(i, h) == st.Consensus(i, h))
            && st'.Client(id) == ClientState(height, cs.trustingPeriod)
            && (forall i :: i != id ==> st'.Client(i) == st.Client(i))
  {
    assert CheckInitialize(cfg, sender, cs, cons).Ok?;
  }

  /** What an accepted update has passed. */
  lemma AcceptedUpdate(cfg: Config, st: State, now: nat, id: string, m: UpdateStateInput, proof: Bytes)
    requires Update(cfg, st, now, id, m, proof).Ok?
    ensures m.trustedHeight < m.untrustedHeight
    ensures (id, m.trustedHeight) in st.consensusStates
    ensures cfg.accepts(proof, m.input)
    ensures m.input == PublicInputs(cfg, MessageClaim(m, st.Consensus(id, m.trustedHeight).blockHash))
    ensures m.untrustedBlockHash == TendermintHeader.MerkleRoot(cfg.H, m.timestamp, m.appHash, m.simpleTreeProof)
    ensures Update(cfg, st, now, id, m, proof) == Ok(ApplyUpdate(st, id, m))
  {
    hide TendermintHeader.MerkleRoot, CheckInputs, PublicInputs;
    UpdateExact(cfg, st, now, id, m, proof);
  }

  /** Equal public inputs, without collision, come from equal claims. */
  lemma ClaimsAgree(cfg: Config, c: Claim, d: Claim, strings: set<Bytes>)
    requires TruncatedCollisionFree(cfg.H, strings)
    requires {ClaimString(c), c.to, ClaimString(d), d.to} <= strings
    requires PublicInputs(cfg, c) == PublicInputs(cfg, d)
    ensures c == d
  {
    hide Truncated;
    assert Truncated(cfg.H, ClaimString(c)) == PublicInputs(cfg, c)[1] == Truncated(cfg.H, ClaimString(d));
    assert Truncated(cfg.H, c.to) == PublicInputs(cfg, c)[2] == Truncated(cfg.H, d.to);
    assert ClaimString(c) in strings && ClaimString(d) in strings && c.to in strings && d.to in strings;
    ClaimDetermined(c, d);
  }

  /** The block hash of an accepted update is the chain's. */
  lemma AcceptedHashIsGenuine(cfg: Config, st: State, a: Assumptions, call: Call)
    requires call.CallUpdate? && a.Hold(cfg) && Safe(cfg.H, a.chain, st)
    requires ClaimStrings(st, call, a.extract) <= a.claimStrings
    requires Attempt(cfg, st, call).Ok?
    ensures call.m.untrustedBlockHash == BlockHash(cfg.H, a.chain(call.m.untrustedHeight))
  {
    hide PublicInputs, ClaimString, Update, TruncatedCollisionFree, CollisionFree, BlockHash, HeaderStrings, ChainValid;
    var m := call.m;
    AcceptedUpdate(cfg, st, call.now, call.id, m, call.proof);
    var c := MessageClaim(m, st.Consensus(call.id, m.trustedHeight).blockHash);
    ClaimsAgree(cfg, c, a.extract(call.proof, m.input), a.claimStrings);
  }

  /** A header with the chain's block hash has the chain's timestamp and app hash. */
  lemma HashFixesHeader(H: Hash, chain: Chain, m: UpdateStateInput, strings: set<Bytes>)
    requires ChainValid(chain) && CollisionFree(H, strings)
    requires TendermintHeader.MerkleRoot(H, m.timestamp, m.appHash, m.simpleTreeProof)
             == BlockHash(H, chain(m.untrustedHeight))
    requires TendermintHeader.HashedByRoot(H, m.timestamp, m.appHash, m.simpleTreeProof) <= strings
    requires var h := chain(m.untrustedHeight);
             TendermintHeader.HashedByRoot(H, h.time, h.appHash, GetSimpleTreeProof(H, h).value) <= strings
    ensures m.timestamp == chain(m.untrustedHeight).time && m.appHash == chain(m.untrustedHeight).appHash
  {
    var header := chain(m.untrustedHeight);
    SimpleTreeProofCorrect(H, header);
    hide TendermintHeader.MerkleRoot, TendermintHeader.HashedByRoot, GetSimpleTreeProof;
    TendermintHeader.HeaderBinding(H, m.timestamp, m.appHash, m.simpleTreeProof,
                                   header.time, header.appHash, GetSimpleTreeProof(H, header).value, strings);
  }

  /** An accepted update carries the chain's own header at its height. */
  lemma AcceptedUpdateIsGenuine(cfg: Config, st: State, a: Assumptions, call: Call)
    requires call.CallUpdate? && a.Hold(cfg) && a.Cover(cfg, st, call)
    requires Safe(cfg.H, a.chain, st)
    requires Attempt(cfg, st, call).Ok?
    ensures var m := call.m;
            ConsensusState(m.untrustedBlockHash, m.appHash, m.timestamp) == Genuine(cfg.H, a.chain, m.untrustedHeight)
  {
    hide Update, TendermintHeader.MerkleRoot, TendermintHeader.HashedByRoot, ClaimStrings;
    AcceptedHashIsGenuine(cfg, st, a, call);
    AcceptedUpdate(cfg, st, call.now, call.id, call.m, call.proof);
    HashFixesHeader(cfg.H, a.chain, call.m, a.headerStrings);
  }

  /** Writing a genuine entry keeps everything stored genuine. */
  lemma ApplyUpdateSafe(H: Hash, chain: Chain, st: State, id: string, m: UpdateStateInput)
    requires ChainValid(chain) && Safe(H, chain, st)
    requires ConsensusState(m.untrustedBlockHash, m.appHash, m.timestamp) == Genuine(H, chain, m.untrustedHeight)
    ensures Safe(H, chain, ApplyUpdate(st, id, m))
  {
  }

  lemma StepSafe(cfg: Config, st: State, a: Assumptions, call: Call)
    requires a.Hold(cfg) && a.Cover(cfg, st, call)
    requires Safe(cfg.H, a.chain, st)
    ensures Safe(cfg.H, a.chain, Exec(cfg, st, call))
  {
    hide Update, HeaderStrings, ClaimStrings;
    if call.CallUpdate? && Attempt(cfg, st, call).Ok? {
      AcceptedUpdateIsGenuine(cfg, st, a, call);
      AcceptedUpdate(cfg, st, call.now, call.id, call.m, call.proof);
      ApplyUpdateSafe(cfg.H, a.chain, st, call.id, call.m);
    }
  }

  lemma CoverPrefix(cfg: Config, a: Assumptions, calls: seq<Call>, n: nat)
    requires ChainValid(a.chain) && a.CoverRun(cfg, EMPTY_STATE, calls) && n <= |calls|
    ensures a.CoverRun(cfg, EMPTY_STATE, calls[..n])
    ensures n < |calls| ==> a.Cover(cfg, Run(cfg, EMPTY_STATE, calls[..n]), calls[n])
  {
    forall i | 0 <= i < n
      ensures a.Cover(cfg, Run(cfg, EMPTY_STATE, calls[..n][..i]), calls[..n][i])
    {
      assert calls[..n][..i] == calls[..i];
    }
  }

  /** Whole-run safety: start from nothing, apply any calls, of which those initializations that
      are accepted use genuine headers; every stored block hash, app hash and timestamp is the
      chain's own at that height. */
  lemma {:induction false} WholeRunSafe(cfg: Config, a: Assumptions, calls: seq<Call>)
    requires a.Hold(cfg) && a.CoverRun(cfg, EMPTY_STATE, calls)
    ensures Safe(cfg.H, a.chain, Run(cfg, EMPTY_STATE, calls))
    decreases |calls|
  {
    if calls != [] {
      var n := |calls| - 1;
      hide a.Cover, Safe;
      CoverPrefix(cfg, a, calls, n);
      WholeRunSafe(cfg, a, calls[..n]);
      StepSafe(cfg, Run(cfg, EMPTY_STATE, calls[..n]), a, calls[n]);
    }
  }
}
