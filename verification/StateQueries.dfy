/** What the answers of the light client say about the chain. */
module StateQueries {
  import opened Bytes
  import opened ProtoWire
  import opened TreeVerifier
  import opened LightClient
  import opened LightClientSafety
  import AppState
  import IavlCompleteness
  import IavlTree
  import NonMembership
  import SimpleTree

  /** A membership question is answered exactly when it is about the contract's own revision and the
      proof leads to the stored app hash. */
  lemma MembershipExact(cfg: Config, st: State, id: string, height: Height, e0: ExistenceProof, e1: ExistenceProof,
                        prefix: Bytes, path: Bytes, value: Bytes)
    ensures VerifyMembership(cfg, st, id, height, e0, e1, prefix, path, value).Ok? <==>
            && height.revisionNumber == cfg.revisionNumber
            && AppState.MembershipAppHash(cfg.H, e0, e1, prefix, path, value)
               == Ok(st.Consensus(id, height.revisionHeight).appHash)
  {
    hide AppState.MembershipAppHash;
  }

  /** The same for absence; the proof must be about the asked path and store. */
  lemma AbsenceExact(cfg: Config, st: State, id: string, height: Height, p0: NonExistenceProof, p1: ExistenceProof,
                     prefix: Bytes, path: Bytes)
    ensures VerifyNonMembership(cfg, st, id, height, p0, p1, prefix, path).Ok? <==>
            && height.revisionNumber == cfg.revisionNumber
            && p0.key == path && p1.key == prefix
            && AppState.AbsenceAppHash(cfg.H, p0, p1, prefix) == Ok(st.Consensus(id, height.revisionHeight).appHash)
  {
    hide AppState.AbsenceAppHash;
  }

  /** A height never written reads as zero, so a proof about it must lead to the zero hash. */
  lemma UnwrittenHeight(cfg: Config, st: State, id: string, height: Height, e0: ExistenceProof, e1: ExistenceProof,
                        prefix: Bytes, path: Bytes, value: Bytes)
    requires (id, height.revisionHeight) !in st.consensusStates
    requires VerifyMembership(cfg, st, id, height, e0, e1, prefix, path, value).Ok?
    ensures AppState.MembershipAppHash(cfg.H, e0, e1, prefix, path, value) == Ok(Zeros(32))
  {
    MembershipExact(cfg, st, id, height, e0, e1, prefix, path, value);
    hide AppState.MembershipAppHash, VerifyMembership;
  }

  // ------------------------------------------------------------------------ position binding

  /** Under an app hash of an honest state, a path has at most one provable value. */
  lemma MembershipUnique(cfg: Config, st: State, app: AppState.AppState, id: string, height: Height,
                         e0: ExistenceProof, e1: ExistenceProof, value: Bytes,
                         f0: ExistenceProof, f1: ExistenceProof, value': Bytes, prefix: Bytes, path: Bytes)
    requires AppState.Honest(cfg.H, app)
    requires st.Consensus(id, height.revisionHeight).appHash == AppState.AppHash(cfg.H, app)
    requires CollisionFree(cfg.H, AppState.Hashed(cfg.H, app)
                                  + AppState.HashedByMembership(cfg.H, e0, e1, prefix, path, value))
    requires CollisionFree(cfg.H, AppState.Hashed(cfg.H, app)
                                  + AppState.HashedByMembership(cfg.H, f0, f1, prefix, path, value'))
    requires VerifyMembership(cfg, st, id, height, e0, e1, prefix, path, value) == Ok(true)
    requires VerifyMembership(cfg, st, id, height, f0, f1, prefix, path, value') == Ok(true)
    ensures value == value'
  {
    hide VerifyMembership, AppState.MembershipAppHash, AppState.HashedByMembership, AppState.Honest;
    MembershipExact(cfg, st, id, height, e0, e1, prefix, path, value);
    MembershipExact(cfg, st, id, height, f0, f1, prefix, path, value');
    AppState.MembershipSound(cfg.H, app, e0, e1, prefix, path, value);
    AppState.MembershipSound(cfg.H, app, f0, f1, prefix, path, value');
    AppState.EntriesUnique(cfg.H, app, prefix, path, value, value');
  }

  /** A path proven present is never proven absent under the same app hash. */
  lemma MembershipExcludesAbsence(cfg: Config, st: State, app: AppState.AppState, id: string, height: Height,
                                  e0: ExistenceProof, e1: ExistenceProof, value: Bytes,
                                  p0: NonExistenceProof, p1: ExistenceProof, prefix: Bytes, path: Bytes)
    requires AppState.Honest(cfg.H, app)
    requires st.Consensus(id, height.revisionHeight).appHash == AppState.AppHash(cfg.H, app)
    requires CollisionFree(cfg.H, AppState.Hashed(cfg.H, app)
                                  + AppState.HashedByMembership(cfg.H, e0, e1, prefix, path, value))
    requires CollisionFree(cfg.H, AppState.Hashed(cfg.H, app) + AppState.HashedByAbsence(cfg.H, p0, p1, prefix))
    requires VerifyMembership(cfg, st, id, height, e0, e1, prefix, path, value) == Ok(true)
    ensures VerifyNonMembership(cfg, st, id, height, p0, p1, prefix, path).Revert?
  {
    hide VerifyMembership, AppState.MembershipAppHash, AppState.HashedByMembership, AppState.Honest;
    hide VerifyNonMembership, AppState.AbsenceAppHash, AppState.HashedByAbsence;
    MembershipExact(cfg, st, id, height, e0, e1, prefix, path, value);
    AppState.MembershipSound(cfg.H, app, e0, e1, prefix, path, value);
    if VerifyNonMembership(cfg, st, id, height, p0, p1, prefix, path).Ok? {
      AbsenceExact(cfg, st, id, height, p0, p1, prefix, path);
      AppState.AbsenceSound(cfg.H, app, p0, p1, prefix);
      AppState.EntriesUnique(cfg.H, app, prefix, path, value, value);
    }
  }

  // ---------------------------------------------------------------------------- completeness

  /** Under the app hash of an honest state the contract answers every entry and every gap of a
      store, given the honest proof, exactly when the headers on the way fit. */
  lemma QueriesComplete(cfg: Config, st: State, app: AppState.AppState, id: string, height: Height, name: Bytes)
    requires AppState.Honest(cfg.H, app) && name in app.stores
    requires SimpleTree.Maps(app.simple, name, IavlTree.RootHash(cfg.H, app.stores[name]))
    requires height.revisionNumber == cfg.revisionNumber
    requires st.Consensus(id, height.revisionHeight).appHash == AppState.AppHash(cfg.H, app)
    ensures var t := app.stores[name];
            forall i :: 0 <= i < |IavlTree.Leaves(t)| ==>
              var leaf := IavlTree.Leaves(t)[i];
              VerifyMembership(cfg, st, id, height, IavlTree.Prove(cfg.H, t, i), AppState.StoreProof(cfg.H, app, name),
                               name, leaf.key, leaf.value).Ok?
              <==> IavlCompleteness.StepsFit(t, IavlTree.PositionOf(t, i))
    ensures var t := app.stores[name];
            forall key :: !IavlTree.HasKey(t, key) ==>
              (VerifyNonMembership(cfg, st, id, height, NonMembership.ProveAbsent(cfg.H, t, key),
                                   AppState.StoreProof(cfg.H, app, name), name, key).Ok?
               <==> NonMembership.GapProvable(t, NonMembership.InsertionRank(t, key, 0)))
  {
    hide AppState.MembershipAppHash, AppState.AbsenceAppHash, AppState.Honest;
    hide IavlCompleteness.StepsFit, NonMembership.GapProvable;
    AppState.StateComplete(cfg.H, app, name);
  }

  // -------------------------------------------------------------------------------- end to end

  /** The state of the chain that each header commits to. */
  ghost predicate StatesValid(H: Hash, chain: Chain, states: uint64 -> AppState.AppState) {
    forall h: uint64 :: AppState.Honest(H, states(h)) && chain(h).appHash == AppState.AppHash(H, states(h))
  }

  /** After any run, an accepted membership proof at a stored height is true of the chain's state. */
  lemma MembershipTrueOfChain(cfg: Config, a: Assumptions, states: uint64 -> AppState.AppState, calls: seq<Call>,
                              id: string, height: Height, e0: ExistenceProof, e1: ExistenceProof,
                              prefix: Bytes, path: Bytes, value: Bytes)
    requires a.Hold(cfg) && a.CoverRun(cfg, EMPTY_STATE, calls)
    requires StatesValid(cfg.H, a.chain, states)
    requires var st := Run(cfg, EMPTY_STATE, calls);
             && (id, height.revisionHeight) in st.consensusStates
             && VerifyMembership(cfg, st, id, height, e0, e1, prefix, path, value) == Ok(true)
    requires CollisionFree(cfg.H, AppState.Hashed(cfg.H, states(height.revisionHeight))
                                  + AppState.HashedByMembership(cfg.H, e0, e1, prefix, path, value))
    ensures AppState.Has(states(height.revisionHeight), prefix, path, value)
  {
    hide VerifyMembership, AppState.MembershipAppHash, AppState.HashedByMembership, AppState.Honest;
    WholeRunSafe(cfg, a, calls);
    MembershipExact(cfg, Run(cfg, EMPTY_STATE, calls), id, height, e0, e1, prefix, path, value);
    AppState.MembershipSound(cfg.H, states(height.revisionHeight), e0, e1, prefix, path, value);
  }

  /** After any run, an accepted absence proof at a stored height is true of the chain's state. */
  lemma AbsenceTrueOfChain(cfg: Config, a: Assumptions, states: uint64 -> AppState.AppState, calls: seq<Call>,
                           id: string, height: Height, p0: NonExistenceProof, p1: ExistenceProof,
                           prefix: Bytes, path: Bytes)
    requires a.Hold(cfg) && a.CoverRun(cfg, EMPTY_STATE, calls)
    requires StatesValid(cfg.H, a.chain, states)
    requires var st := Run(cfg, EMPTY_STATE, calls);
             && (id, height.revisionHeight) in st.consensusStates
             && VerifyNonMembership(cfg, st, id, height, p0, p1, prefix, path) == Ok(true)
    requires CollisionFree(cfg.H, AppState.Hashed(cfg.H, states(height.revisionHeight))
                                  + AppState.HashedByAbsence(cfg.H, p0, p1, prefix))
    ensures AppState.Lacks(states(height.revisionHeight), prefix, path)
  {
    hide VerifyNonMembership, AppState.AbsenceAppHash, AppState.HashedByAbsence, AppState.Honest;
    WholeRunSafe(cfg, a, calls);
    AbsenceExact(cfg, Run(cfg, EMPTY_STATE, calls), id, height, p0, p1, prefix, path);
    AppState.AbsenceSound(cfg.H, states(height.revisionHeight), p0, p1, prefix);
  }
}
