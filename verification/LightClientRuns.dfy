/** Heights over whole runs, and the order in which updates arrive. */
module LightClientRuns {
  import opened Bytes
  import opened ProtoWire
  import opened LightClient
  import opened LightClientSafety

  /** The call initializes the client; one that reverts does not. */
  predicate Initializes(cfg: Config, st: State, call: Call, id: string) {
    call.CallInitialize? && call.id == id && Attempt(cfg, st, call).Ok?
  }

  /** No call of the run initializes the client. */
  predicate NeverInitialized(cfg: Config, st: State, calls: seq<Call>, id: string) {
    forall i :: 0 <= i < |calls| ==> !Initializes(cfg, Run(cfg, st, calls[..i]), calls[i], id)
  }

  lemma NeverInitializedPrefix(cfg: Config, st: State, calls: seq<Call>, id: string, n: nat)
    requires n < |calls| && NeverInitialized(cfg, st, calls, id)
    ensures NeverInitialized(cfg, st, calls[..n], id)
    ensures !Initializes(cfg, Run(cfg, st, calls[..n]), calls[n], id)
  {
    forall i | 0 <= i < n
      ensures !Initializes(cfg, Run(cfg, st, calls[..n][..i]), calls[..n][i], id)
    {
      assert calls[..n][..i] == calls[..i];
    }
  }

  // --------------------------------------------------------------------------------- heights

  /** Nothing was ever written for the client. */
  ghost predicate Fresh(st: State, id: string) {
    id !in st.clientStates && forall h :: (id, h) !in st.consensusStates
  }

  /** The client started at `first`; its latest height is the largest one written, `first` the
      smallest, and it has a trusting period. */
  ghost predicate HeightsOf(st: State, id: string, first: uint64) {
    && id in st.clientStates
    && st.Client(id).trustingPeriod != 0
    && (id, first) in st.consensusStates
    && (id, st.Client(id).latestHeight) in st.consensusStates
    && forall h :: (id, h) in st.consensusStates ==> first <= h <= st.Client(id).latestHeight
  }

  /** A call about one client leaves every entry of the others alone. */
  lemma OthersUntouched(cfg: Config, st: State, call: Call, id: string)
    requires call.id != id
    ensures var st' := Exec(cfg, st, call);
            && (id in st.clientStates <==> id in st'.clientStates)
            && st.Client(id) == st'.Client(id)
            && forall h: uint64 :: ((id, h) in st.consensusStates <==> (id, h) in st'.consensusStates)
                        && st.Consensus(id, h) == st'.Consensus(id, h)
  {
    hide CheckUpdate, CheckInitialize;
  }

  lemma FreshStep(cfg: Config, st: State, call: Call, id: string)
    requires Fresh(st, id) && !Initializes(cfg, st, call, id)
    ensures Fresh(Exec(cfg, st, call), id)
  {
    if call.id != id {
      OthersUntouched(cfg, st, call, id);
    } else if Attempt(cfg, st, call).Ok? {
      AcceptedUpdate(cfg, st, call.now, call.id, call.m, call.proof);
    }
  }

  /** One call that does not initialize the client keeps its heights in order, never lowers the
      latest one and never changes the trusting period. */
  lemma HeightsStep(cfg: Config, st: State, call: Call, id: string, first: uint64)
    requires HeightsOf(st, id, first) && !Initializes(cfg, st, call, id)
    ensures var st' := Exec(cfg, st, call);
            && HeightsOf(st', id, first)
            && st'.Client(id).trustingPeriod == st.Client(id).trustingPeriod
            && st'.Client(id).latestHeight >= st.Client(id).latestHeight
  {
    hide Update;
    if call.id != id {
      OthersUntouched(cfg, st, call, id);
    } else if Attempt(cfg, st, call).Ok? {
      AcceptedUpdate(cfg, st, call.now, call.id, call.m, call.proof);
    }
  }

  lemma {:induction false} RunConcat(cfg: Config, st: State, before: seq<Call>, after: seq<Call>)
    ensures Run(cfg, st, before + after) == Run(cfg, Run(cfg, st, before), after)
    decreases |after|
  {
    var calls, n := before + after, |before| + |after| - 1;
    if after == [] {
      assert calls == before;
    } else {
      RunConcat(cfg, st, before, after[..|after| - 1]);
      assert calls[..n] == before + after[..|after| - 1] && calls[n] == after[|after| - 1];
    }
  }

  lemma {:induction false} FreshRun(cfg: Config, st: State, calls: seq<Call>, id: string)
    requires Fresh(st, id)
    requires NeverInitialized(cfg, st, calls, id)
    ensures Fresh(Run(cfg, st, calls), id)
    decreases |calls|
  {
    if calls != [] {
      var n := |calls| - 1;
      hide Initializes, Attempt;
      NeverInitializedPrefix(cfg, st, calls, id, n);
      FreshRun(cfg, st, calls[..n], id);
      FreshStep(cfg, Run(cfg, st, calls[..n]), calls[n], id);
    }
  }

  /** Any calls that do not initialize the client again keep its heights in order; along them the
      latest height never drops. */
  lemma {:induction false} HeightsRun(cfg: Config, st: State, calls: seq<Call>, id: string, first: uint64)
    requires HeightsOf(st, id, first)
    requires NeverInitialized(cfg, st, calls, id)
    ensures var st' := Run(cfg, st, calls);
            && HeightsOf(st', id, first)
            && st'.Client(id).trustingPeriod == st.Client(id).trustingPeriod
            && st'.Client(id).latestHeight >= st.Client(id).latestHeight
    decreases |calls|
  {
    if calls != [] {
      var n := |calls| - 1;
      hide Initializes, Attempt;
      NeverInitializedPrefix(cfg, st, calls, id, n);
      HeightsRun(cfg, st, calls[..n], id, first);
      HeightsStep(cfg, Run(cfg, st, calls[..n]), calls[n], id, first);
    }
  }

  /** Over every run that initializes a client once, the client's latest height is the largest
      height written, its initial height the smallest, and its trusting period the initial one. */
  lemma HeightInvariant(cfg: Config, before: seq<Call>, init: Call, after: seq<Call>)
    requires init.CallInitialize? && Attempt(cfg, Run(cfg, EMPTY_STATE, before), init).Ok?
    requires NeverInitialized(cfg, EMPTY_STATE, before, init.id)
    requires NeverInitialized(cfg, Run(cfg, EMPTY_STATE, before + [init]), after, init.id)
    ensures var st := Run(cfg, EMPTY_STATE, before + [init] + after);
            && HeightsOf(st, init.id, init.cs.latestHeight.revisionHeight)
            && st.Client(init.id).trustingPeriod == init.cs.trustingPeriod
  {
    var first := init.cs.latestHeight.revisionHeight;
    var st0 := Run(cfg, EMPTY_STATE, before);
    FreshRun(cfg, EMPTY_STATE, before, init.id);
    var st1 := Exec(cfg, st0, init);
    assert HeightsOf(st1, init.id, first);
    assert Run(cfg, st0, [init]) == st1 by {
      assert [init][..0] == [];
    }
    RunConcat(cfg, EMPTY_STATE, before, [init]);
    RunConcat(cfg, EMPTY_STATE, before + [init], after);
    HeightsRun(cfg, st1, after, init.id, first);
  }

  // ----------------------------------------------------------------------------- update order

  /** The checks of an update depend on the block it trusts and on the trusting period only. */
  lemma CheckUpdateDepends(cfg: Config, st: State, st': State, now: nat, id: string, m: UpdateStateInput)
    requires st.Consensus(id, m.trustedHeight) == st'.Consensus(id, m.trustedHeight)
    requires st.Client(id).trustingPeriod == st'.Client(id).trustingPeriod
    ensures CheckUpdate(cfg, st, now, id, m) == CheckUpdate(cfg, st', now, id, m)
  {
  }

  /** An update leaves trusting periods alone, and stored blocks too if it rewrites them with what
      they were. */
  lemma ApplyKeeps(st: State, id: string, m: UpdateStateInput, id': string, h: uint64)
    requires (id', h) in st.consensusStates
    requires (id', h) == (id, m.untrustedHeight) ==>
               st.Consensus(id', h) == ConsensusState(m.untrustedBlockHash, m.appHash, m.timestamp)
    ensures ApplyUpdate(st, id, m).Consensus(id', h) == st.Consensus(id', h)
    ensures ApplyUpdate(st, id, m).Client(id').trustingPeriod == st.Client(id').trustingPeriod
  {
  }

  /** After one accepted update, another one acceptable before is still acceptable: the block it
      trusts is unchanged, or rewritten with the same genuine content. */
  lemma StillAcceptable(cfg: Config, st: State, a: Assumptions, u: Call, v: Call)
    requires u.CallUpdate? && v.CallUpdate?
    requires a.Hold(cfg) && Safe(cfg.H, a.chain, st)
    requires a.Cover(cfg, st, u)
    requires Attempt(cfg, st, u).Ok? && Attempt(cfg, st, v).Ok?
    ensures Attempt(cfg, Exec(cfg, st, u), v) == Ok(ApplyUpdate(ApplyUpdate(st, u.id, u.m), v.id, v.m))
  {
    AcceptedUpdateIsGenuine(cfg, st, a, u);
    hide HeaderStrings, ClaimStrings, ApplyUpdate, CheckUpdate;
    AcceptedUpdate(cfg, st, u.now, u.id, u.m, u.proof);
    AcceptedUpdate(cfg, st, v.now, v.id, v.m, v.proof);
    ApplyKeeps(st, u.id, u.m, v.id, v.m.trustedHeight);
    CheckUpdateDepends(cfg, st, ApplyUpdate(st, u.id, u.m), v.now, v.id, v.m);
  }

  lemma RaiseLatestCommutes(clients: map<string, ClientState>, id: string, h: uint64, id': string, h': uint64)
    ensures RaiseLatest(RaiseLatest(clients, id, h), id', h') == RaiseLatest(RaiseLatest(clients, id', h'), id, h)
  {
    var s, t := RaiseLatest(RaiseLatest(clients, id, h), id', h'), RaiseLatest(RaiseLatest(clients, id', h'), id, h);
    assert s.Keys == t.Keys;
    assert forall k :: k in s.Keys ==> s[k] == t[k];
  }

  /** Writing two updates that agree where they overlap commutes. */
  lemma ApplyCommutes(st: State, id: string, m: UpdateStateInput, id': string, m': UpdateStateInput)
    requires id == id' && m.untrustedHeight == m'.untrustedHeight ==>
               m.untrustedBlockHash == m'.untrustedBlockHash && m.appHash == m'.appHash && m.timestamp == m'.timestamp
    ensures ApplyUpdate(ApplyUpdate(st, id, m), id', m') == ApplyUpdate(ApplyUpdate(st, id', m'), id, m)
  {
    hide RaiseLatest;
    RaiseLatestCommutes(st.clientStates, id, m.untrustedHeight, id', m'.untrustedHeight);
    var s, t := ApplyUpdate(ApplyUpdate(st, id, m), id', m'), ApplyUpdate(ApplyUpdate(st, id', m'), id, m);
    assert s.consensusStates == t.consensusStates;
  }

  /** Two updates acceptable in the same state are acceptable in either order, with the same
      result. */
  lemma UpdatesCommute(cfg: Config, st: State, a: Assumptions, u: Call, v: Call)
    requires u.CallUpdate? && v.CallUpdate?
    requires a.Hold(cfg) && Safe(cfg.H, a.chain, st)
    requires a.Cover(cfg, st, u) && a.Cover(cfg, st, v)
    requires Attempt(cfg, st, u).Ok? && Attempt(cfg, st, v).Ok?
    ensures Attempt(cfg, Exec(cfg, st, u), v).Ok?
    ensures Attempt(cfg, Exec(cfg, st, u), v) == Attempt(cfg, Exec(cfg, st, v), u)
  {
    hide HeaderStrings, ClaimStrings, Update, ApplyUpdate;
    StillAcceptable(cfg, st, a, u, v);
    StillAcceptable(cfg, st, a, v, u);
    AcceptedUpdateIsGenuine(cfg, st, a, u);
    AcceptedUpdateIsGenuine(cfg, st, a, v);
    AcceptedUpdate(cfg, st, u.now, u.id, u.m, u.proof);
    AcceptedUpdate(cfg, st, v.now, v.id, v.m, v.proof);
    ApplyCommutes(st, u.id, u.m, v.id, v.m);
  }

  /** Updating to a height already stored changes nothing. */
  lemma UpdateRepeats(cfg: Config, st: State, a: Assumptions, u: Call, first: uint64)
    requires u.CallUpdate?
    requires a.Hold(cfg) && Safe(cfg.H, a.chain, st) && a.Cover(cfg, st, u)
    requires Attempt(cfg, st, u).Ok?
    requires HeightsOf(st, u.id, first) && (u.id, u.m.untrustedHeight) in st.consensusStates
    ensures Exec(cfg, st, u) == st
  {
    hide HeaderStrings, ClaimStrings, Update;
    AcceptedUpdateIsGenuine(cfg, st, a, u);
    AcceptedUpdate(cfg, st, u.now, u.id, u.m, u.proof);
    var st' := ApplyUpdate(st, u.id, u.m);
    assert st'.consensusStates == st.consensusStates;
    assert st'.clientStates == st.clientStates;
  }

  /** In every reachable state: whichever of two acceptable updates comes first, the run ends in
      the same state, with both applied. */
  lemma RunOrderIrrelevant(cfg: Config, a: Assumptions, calls: seq<Call>, u: Call, v: Call)
    requires u.CallUpdate? && v.CallUpdate?
    requires a.Hold(cfg) && a.CoverRun(cfg, EMPTY_STATE, calls)
    requires var st := Run(cfg, EMPTY_STATE, calls);
             && a.Cover(cfg, st, u) && a.Cover(cfg, st, v)
             && Attempt(cfg, st, u).Ok? && Attempt(cfg, st, v).Ok?
    ensures Run(cfg, EMPTY_STATE, calls + [u, v]) == Run(cfg, EMPTY_STATE, calls + [v, u])
    ensures (u.id, u.m.untrustedHeight) in Run(cfg, EMPTY_STATE, calls + [u, v]).consensusStates
    ensures (v.id, v.m.untrustedHeight) in Run(cfg, EMPTY_STATE, calls + [u, v]).consensusStates
  {
    var st := Run(cfg, EMPTY_STATE, calls);
    WholeRunSafe(cfg, a, calls);
    RunTwo(cfg, calls, u, v);
    RunTwo(cfg, calls, v, u);
    UpdatesCommute(cfg, st, a, u, v);
    StillAcceptable(cfg, st, a, u, v);
    hide Run;
    assert ApplyUpdate(ApplyUpdate(st, u.id, u.m), v.id, v.m).consensusStates
        == Run(cfg, EMPTY_STATE, calls + [u, v]).consensusStates;
  }

  lemma RunOne(cfg: Config, calls: seq<Call>, u: Call)
    ensures Run(cfg, EMPTY_STATE, calls + [u]) == Exec(cfg, Run(cfg, EMPTY_STATE, calls), u)
  {
    hide Exec;
    assert (calls + [u])[..|calls|] == calls;
  }

  lemma RunTwo(cfg: Config, calls: seq<Call>, u: Call, v: Call)
    ensures Run(cfg, EMPTY_STATE, calls + [u, v]) == Exec(cfg, Exec(cfg, Run(cfg, EMPTY_STATE, calls), u), v)
  {
    hide Exec;
    assert (calls + [u, v])[..|calls| + 1] == calls + [u];
    assert (calls + [u])[..|calls|] == calls;
  }

  /** In every state reached with one initialization of the client: repeating an update of a
      stored height changes nothing. */
  lemma RunRepeatHarmless(cfg: Config, a: Assumptions, before: seq<Call>, init: Call, after: seq<Call>, u: Call)
    requires init.CallInitialize? && Attempt(cfg, Run(cfg, EMPTY_STATE, before), init).Ok?
    requires NeverInitialized(cfg, EMPTY_STATE, before, init.id)
    requires NeverInitialized(cfg, Run(cfg, EMPTY_STATE, before + [init]), after, init.id)
    requires a.Hold(cfg) && a.CoverRun(cfg, EMPTY_STATE, before + [init] + after)
    requires u.CallUpdate? && u.id == init.id
    requires var st := Run(cfg, EMPTY_STATE, before + [init] + after);
             && a.Cover(cfg, st, u) && Attempt(cfg, st, u).Ok?
             && (u.id, u.m.untrustedHeight) in st.consensusStates
    ensures Run(cfg, EMPTY_STATE, before + [init] + after + [u]) == Run(cfg, EMPTY_STATE, before + [init] + after)
  {
    hide Run, Safe, a.Cover;
    var calls := before + [init] + after;
    WholeRunSafe(cfg, a, calls);
    HeightInvariant(cfg, before, init, after);
    UpdateRepeats(cfg, Run(cfg, EMPTY_STATE, calls), a, u, init.cs.latestHeight.revisionHeight);
    RunOne(cfg, calls, u);
  }
}
