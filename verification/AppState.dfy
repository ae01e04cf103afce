/** The two layers of a state proof: an IAVL tree per store, and a simple tree of store roots
    whose root is the app hash. */
module AppState {
  import opened Bytes
  import opened TreeVerifier
  import IavlTree
  import IavlSoundness
  import IavlCompleteness
  import NonMembership
  import SimpleTree

  /** The state of a chain: the tree of stores and the content of each store. */
  datatype AppState = AppState(simple: SimpleTree.Simple, stores: map<Bytes, IavlTree.Iavl>)

  /** The hypotheses on the chain: store names under 30 bytes, sorted well-formed stores, and a
      simple tree that maps each name to the root of that store. */
  ghost predicate Honest(H: Hash, a: AppState) {
    && SimpleTree.NamesBelow(a.simple, 30)
    && (forall name, root :: SimpleTree.Maps(a.simple, name, root) ==>
          name in a.stores && root == IavlTree.RootHash(H, a.stores[name]))
    && (forall name :: name in a.stores ==> IavlTree.WellFormed(a.stores[name]) && IavlTree.Sorted(a.stores[name]))
  }

  function AppHash(H: Hash, a: AppState): Digest {
    SimpleTree.RootHash(H, a.simple)
  }

  /** Every string hashed to compute the app hash from the stores. */
  ghost function Hashed(H: Hash, a: AppState): set<Bytes> {
    SimpleTree.Hashed(H, a.simple) +
    set name, x | name in a.stores && x in IavlTree.Hashed(H, a.stores[name]) :: x
  }

  ghost predicate Has(a: AppState, name: Bytes, path: Bytes, value: Bytes) {
    name in a.stores && IavlTree.Maps(a.stores[name], path, value)
  }

  ghost predicate Lacks(a: AppState, name: Bytes, path: Bytes) {
    name in a.stores && !IavlTree.HasKey(a.stores[name], path)
  }

  // -------------------------------------------------------------------- what the contract computes

  /** The app hash under which store `prefix` maps `path` to `value`. */
  function MembershipAppHash(H: Hash, e0: ExistenceProof, e1: ExistenceProof,
                             prefix: Bytes, path: Bytes, value: Bytes): Outcome<Digest> {
    var root :- IAVLRoot(H, e0.prefix, path, value, e0.path);
    SimpleRoot(H, e1.prefix, prefix, root, e1.path)
  }

  /** The app hash under which store `prefix` lacks `path`. */
  function AbsenceAppHash(H: Hash, p0: NonExistenceProof, p1: ExistenceProof, prefix: Bytes): Outcome<Digest> {
    var root :- NonMembershipRoot(H, p0);
    SimpleRoot(H, p1.prefix, prefix, root, p1.path)
  }

  ghost function HashedByStoreProof(H: Hash, root: Outcome<Digest>, p: ExistenceProof, prefix: Bytes): set<Bytes> {
    match root
    case Revert(_) => {}
    case Ok(r) => SimpleTree.HashedByProof(H, p.prefix, prefix, r, p.path)
  }

  ghost function HashedByMembership(H: Hash, e0: ExistenceProof, e1: ExistenceProof,
                                    prefix: Bytes, path: Bytes, value: Bytes): set<Bytes> {
    IavlSoundness.HashedByProof(H, e0.prefix, path, value, e0.path) +
    HashedByStoreProof(H, IAVLRoot(H, e0.prefix, path, value, e0.path), e1, prefix)
  }

  ghost function HashedByAbsence(H: Hash, p0: NonExistenceProof, p1: ExistenceProof, prefix: Bytes): set<Bytes> {
    NonMembership.HashedByAbsence(H, p0) + HashedByStoreProof(H, NonMembershipRoot(H, p0), p1, prefix)
  }

  // ------------------------------------------------------------------------------ soundness

  /** The simple tree layer: the claimed root is the root of the store named `prefix`. */
  lemma StoreRootSound(H: Hash, a: AppState, p: ExistenceProof, prefix: Bytes, root: Digest, strings: set<Bytes>)
    requires Honest(H, a) && CollisionFree(H, strings) && Hashed(H, a) <= strings
    requires SimpleRoot(H, p.prefix, prefix, root, p.path) == Ok(AppHash(H, a))
    requires SimpleTree.HashedByProof(H, p.prefix, prefix, root, p.path) <= strings
    ensures prefix in a.stores && root == IavlTree.RootHash(H, a.stores[prefix])
    ensures IavlTree.Hashed(H, a.stores[prefix]) <= strings
  {
    SimpleTree.MembershipSound(H, a.simple, p.prefix, prefix, root, p.path, strings);
    forall x | x in IavlTree.Hashed(H, a.stores[prefix]) ensures x in strings {
      assert x in Hashed(H, a);
    }
  }

  /** Two-layer soundness: an accepted membership proof proves an entry of the state. */
  lemma MembershipSound(H: Hash, a: AppState, e0: ExistenceProof, e1: ExistenceProof,
                        prefix: Bytes, path: Bytes, value: Bytes)
    requires Honest(H, a)
    requires MembershipAppHash(H, e0, e1, prefix, path, value) == Ok(AppHash(H, a))
    requires CollisionFree(H, Hashed(H, a) + HashedByMembership(H, e0, e1, prefix, path, value))
    ensures Has(a, prefix, path, value)
  {
    var strings := Hashed(H, a) + HashedByMembership(H, e0, e1, prefix, path, value);
    var root := IAVLRoot(H, e0.prefix, path, value, e0.path).value;
    StoreRootSound(H, a, e1, prefix, root, strings);
    IavlSoundness.MembershipSound(H, a.stores[prefix], e0.prefix, path, value, e0.path, strings);
  }

  /** Two-layer soundness: an accepted absence proof proves a gap of the state. */
  lemma AbsenceSound(H: Hash, a: AppState, p0: NonExistenceProof, p1: ExistenceProof, prefix: Bytes)
    requires Honest(H, a)
    requires AbsenceAppHash(H, p0, p1, prefix) == Ok(AppHash(H, a))
    requires CollisionFree(H, Hashed(H, a) + HashedByAbsence(H, p0, p1, prefix))
    ensures Lacks(a, prefix, p0.key)
  {
    var strings := Hashed(H, a) + HashedByAbsence(H, p0, p1, prefix);
    var root := NonMembershipRoot(H, p0).value;
    StoreRootSound(H, a, p1, prefix, root, strings);
    NonMembership.NonMembershipSound(H, a.stores[prefix], p0, strings);
  }

  /** A sorted store gives a key at most one value, and no value if it lacks the key. */
  lemma EntriesUnique(H: Hash, a: AppState, name: Bytes, path: Bytes, v: Bytes, w: Bytes)
    requires Honest(H, a) && Has(a, name, path, v)
    ensures !Lacks(a, name, path)
    ensures Has(a, name, path, w) ==> v == w
  {
    var t := a.stores[name];
    if IavlTree.Maps(t, path, w) {
      var i :| 0 <= i < |IavlTree.Leaves(t)| && IavlTree.KeyAt(t, i) == path && IavlTree.Leaves(t)[i].value == v;
      var j :| 0 <= j < |IavlTree.Leaves(t)| && IavlTree.KeyAt(t, j) == path && IavlTree.Leaves(t)[j].value == w;
      NonMembership.KeysDistinct(t, i, j);
    }
  }

  // ---------------------------------------------------------------------------- completeness

  function StoreProof(H: Hash, a: AppState, name: Bytes): ExistenceProof
    requires name in a.stores && SimpleTree.Maps(a.simple, name, IavlTree.RootHash(H, a.stores[name]))
  {
    var root := IavlTree.RootHash(H, a.stores[name]);
    ExistenceProof(TreeVerifier.SimpleTree, [0], name, root, SimpleTree.ProvePath(H, a.simple, name, root))
  }

  /** Of every store, the entries and gaps with accepted honest proofs are exactly those whose
      headers fit; the proofs lead to the app hash. */
  lemma StateComplete(H: Hash, a: AppState, name: Bytes)
    requires Honest(H, a) && name in a.stores
    requires SimpleTree.Maps(a.simple, name, IavlTree.RootHash(H, a.stores[name]))
    ensures var t := a.stores[name];
            forall i :: 0 <= i < |IavlTree.Leaves(t)| ==>
              var leaf := IavlTree.Leaves(t)[i];
              var r := MembershipAppHash(H, IavlTree.Prove(H, t, i), StoreProof(H, a, name),
                                         name, leaf.key, leaf.value);
              if IavlCompleteness.StepsFit(t, IavlTree.PositionOf(t, i)) then r == Ok(AppHash(H, a)) else r.Revert?
    ensures var t := a.stores[name];
            forall key :: !IavlTree.HasKey(t, key) ==>
              var r := AbsenceAppHash(H, NonMembership.ProveAbsent(H, t, key), StoreProof(H, a, name), name);
              if NonMembership.GapProvable(t, NonMembership.InsertionRank(t, key, 0)) then r == Ok(AppHash(H, a))
              else r.Revert?
  {
    hide IAVLRoot, NonMembershipRoot, NonMembership.GapProvable, IavlCompleteness.StepsFit, SimpleRoot;
    var t := a.stores[name];
    SimpleTree.MembershipComplete(H, a.simple, name, IavlTree.RootHash(H, t));
    forall i | 0 <= i < |IavlTree.Leaves(t)|
      ensures var r := ProofRoot(H, IavlTree.Prove(H, t, i));
              if IavlCompleteness.StepsFit(t, IavlTree.PositionOf(t, i)) then r == Ok(IavlTree.RootHash(H, t))
              else r.Revert?
    {
      IavlCompleteness.MembershipComplete(H, t, i);
    }
    forall key | !IavlTree.HasKey(t, key)
      ensures var r := NonMembershipRoot(H, NonMembership.ProveAbsent(H, t, key));
              if NonMembership.GapProvable(t, NonMembership.InsertionRank(t, key, 0))
              then r == Ok(IavlTree.RootHash(H, t))
              else r.Revert?
    {
      NonMembership.NonMembershipComplete(H, t, key);
    }
  }
}
