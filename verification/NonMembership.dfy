/** Absence proofs: sound for every sorted tree, and available for every absent key. */
module NonMembership {
  import opened Bytes
  import opened LexOrder
  import opened TreeVerifier
  import opened ProofFormat
  import opened IavlTree
  import opened IavlSoundness
  import opened IavlCompleteness

  /** The strings hashed for the neighbours that are given. */
  ghost function HashedByAbsence(H: Hash, proof: NonExistenceProof): set<Bytes> {
    HashedByNeighbor(H, proof.left) + HashedByNeighbor(H, proof.right)
  }

  ghost function HashedByNeighbor(H: Hash, p: ExistenceProof): set<Bytes> {
    if p.key == [] then {} else HashedByProof(H, p.prefix, p.key, p.value, p.path)
  }

  /** Distinct ranks of a sorted tree have distinct keys. */
  lemma KeysDistinct(t: Iavl, i: nat, j: nat)
    requires Sorted(t) && i < |Leaves(t)| && j < |Leaves(t)|
    requires KeyAt(t, i) == KeyAt(t, j)
    ensures i == j
  {
    BeforeTrichotomy(KeyAt(t, i), KeyAt(t, j));
  }

  /** Whatever lies strictly between two consecutive keys of a sorted tree is not a key. */
  lemma BetweenIsAbsent(t: Iavl, key: Bytes, i: int)
    requires Sorted(t) && -1 <= i < |Leaves(t)|
    requires i >= 0 ==> Before(KeyAt(t, i), key)
    requires i + 1 < |Leaves(t)| ==> Before(key, KeyAt(t, i + 1))
    ensures !HasKey(t, key)
  {
    forall j | 0 <= j < |Leaves(t)|
      ensures KeyAt(t, j) != key
    {
      BeforeTrichotomy(KeyAt(t, j), key);
      if j < i {
        BeforeTransitive(KeyAt(t, j), KeyAt(t, i), key);
      } else if j > i + 1 {
        BeforeTransitive(key, KeyAt(t, i + 1), KeyAt(t, j));
      }
    }
  }

  /** A given neighbour is a leaf of the tree, proven honestly. */
  lemma NeighborIsLeaf(H: Hash, t: Iavl, p: ExistenceProof, strings: set<Bytes>) returns (pos: seq<Side>)
    requires WellFormed(t) && p.key != []
    requires ProofRoot(H, p) == Ok(RootHash(H, t))
    requires CollisionFree(H, strings) && Hashed(H, t) <= strings && HashedByNeighbor(H, p) <= strings
    ensures IsPosition(t, pos) && p.path == Path(H, t, pos) && KeyAt(t, Rank(t, pos)) == p.key
  {
    pos := ProofIsHonest(H, t, p.prefix, p.key, p.value, p.path, strings);
  }

  /** Soundness: an accepted absence proof leads to the root of a sorted tree only if the key is
      not in the tree. */
  lemma NonMembershipSound(H: Hash, t: Iavl, proof: NonExistenceProof, strings: set<Bytes>)
    requires WellFormed(t) && Sorted(t)
    requires NonMembershipRoot(H, proof) == Ok(RootHash(H, t))
    requires CollisionFree(H, strings)
    requires Hashed(H, t) <= strings && HashedByAbsence(H, proof) <= strings
    ensures !HasKey(t, proof.key)
  {
    hide NonMembershipRoot, IAVLRoot, HashedByNeighbor, Hashed;
    var left, right := proof.left, proof.right;
    AbsenceProofAccepted(H, proof, RootHash(H, t));
    var i: int := -1;
    if left.key == [] {
      var q := NeighborIsLeaf(H, t, right, strings);
      LeftMostExact(H, t, q);
    } else {
      var p := NeighborIsLeaf(H, t, left, strings);
      i := Rank(t, p);
      if right.key == [] {
        RightMostExact(H, t, p);
      } else {
        var q := NeighborIsLeaf(H, t, right, strings);
        NeighborExact(H, t, p, q);
      }
    }
    BetweenIsAbsent(t, proof.key, i);
  }

  // ---------------------------------------------------------------------------- completeness

  /** The rank `key` would have: the first leaf from `i` on whose key is not before it. */
  function InsertionRank(t: Iavl, key: Bytes, i: nat): (r: nat)
    requires i <= |Leaves(t)|
    ensures i <= r <= |Leaves(t)|
    ensures forall j :: i <= j < r ==> Before(KeyAt(t, j), key)
    ensures r < |Leaves(t)| ==> !Before(KeyAt(t, r), key)
    decreases |Leaves(t)| - i
  {
    if i < |Leaves(t)| && Before(KeyAt(t, i), key) then InsertionRank(t, key, i + 1) else i
  }

  const NIL_PROOF: ExistenceProof := ExistenceProof(IAVLTree, [], [], [], [])

  function LeftNeighborProof(H: Hash, t: Iavl, i: nat): ExistenceProof
    requires i <= |Leaves(t)|
  {
    if i == 0 then NIL_PROOF else Prove(H, t, i - 1)
  }

  function RightNeighborProof(H: Hash, t: Iavl, i: nat): ExistenceProof
    requires i <= |Leaves(t)|
  {
    if i == |Leaves(t)| then NIL_PROOF else Prove(H, t, i)
  }

  /** The honest absence proof: the proofs of the two neighbours that exist. */
  function ProveAbsent(H: Hash, t: Iavl, key: Bytes): NonExistenceProof {
    var i := InsertionRank(t, key, 0);
    NonExistenceProof(key, LeftNeighborProof(H, t, i), RightNeighborProof(H, t, i))
  }

  /** The gap before the leaf of rank `i` has a provable pair of neighbours: the steps of both fit;
      the first leaf alone needs short headers all the way, two neighbours need them below the node
      where they part; and the left neighbour's key is not empty, which the verifier takes for a
      missing neighbour. */
  predicate GapProvable(t: Iavl, i: nat)
    requires i <= |Leaves(t)|
  {
    && (i > 0 ==> KeyAt(t, i - 1) != [] && StepsFit(t, PositionOf(t, i - 1)))
    && (i < |Leaves(t)| ==> StepsFit(t, PositionOf(t, i)))
    && (i == 0 ==> PathHeadersAtMost(t, PositionOf(t, 0), 11))
    && (0 < i < |Leaves(t)| ==> BelowForkShort(t, PositionOf(t, i - 1), PositionOf(t, i)))
  }

  /** The keys of the neighbours enclose an absent key; the right one is not empty. */
  lemma NeighborsEnclose(t: Iavl, key: Bytes)
    requires Sorted(t) && !HasKey(t, key)
    ensures var i := InsertionRank(t, key, 0);
            && (i > 0 ==> Before(KeyAt(t, i - 1), key))
            && (i < |Leaves(t)| ==> Before(key, KeyAt(t, i)) && KeyAt(t, i) != [])
  {
    var i := InsertionRank(t, key, 0);
    if i < |Leaves(t)| {
      assert KeyAt(t, i) != key;
      BeforeTrichotomy(KeyAt(t, i), key);
    }
  }

  /** Before the first leaf. */
  lemma FirstGap(H: Hash, t: Iavl, key: Bytes)
    requires WellFormed(t) && Before(key, KeyAt(t, 0)) && KeyAt(t, 0) != []
    ensures var r := NonMembershipRoot(H, NonExistenceProof(key, NIL_PROOF, Prove(H, t, 0)));
            if GapProvable(t, 0) then r == Ok(RootHash(H, t)) else r.Revert?
  {
    hide ProofRoot, Path, AllHavePadding, Before, StepsFit, PathHeadersAtMost, WellFormed;
    MembershipComplete(H, t, 0);
    LeftMostExact(H, t, PositionOf(t, 0));
  }

  /** Behind the last leaf. */
  lemma LastGap(H: Hash, t: Iavl, key: Bytes)
    requires WellFormed(t) && Before(KeyAt(t, |Leaves(t)| - 1), key)
    ensures var n := |Leaves(t)|;
            var r := NonMembershipRoot(H, NonExistenceProof(key, Prove(H, t, n - 1), NIL_PROOF));
            if GapProvable(t, n) then r == Ok(RootHash(H, t)) else r.Revert?
  {
    hide ProofRoot, Path, AllHavePadding, Before, StepsFit, PathHeadersAtMost, WellFormed;
    var p := PositionOf(t, |Leaves(t)| - 1);
    MembershipComplete(H, t, |Leaves(t)| - 1);
    RightMostExact(H, t, p);
    if StepsFit(t, p) {
      LastPathFits(t, p);
    }
  }

  /** Between two leaves. */
  lemma InnerGap(H: Hash, t: Iavl, key: Bytes, i: nat)
    requires WellFormed(t) && 0 < i < |Leaves(t)|
    requires Before(KeyAt(t, i - 1), key) && Before(key, KeyAt(t, i)) && KeyAt(t, i) != []
    ensures var r := NonMembershipRoot(H, NonExistenceProof(key, Prove(H, t, i - 1), Prove(H, t, i)));
            if GapProvable(t, i) then r == Ok(RootHash(H, t)) else r.Revert?
  {
    hide ProofRoot, Path, AllHavePadding, Before, StepsFit, PathHeadersAtMost, WellFormed;
    hide LeftNeighbor, ForkShort, BelowForkShort;
    var p, q := PositionOf(t, i - 1), PositionOf(t, i);
    MembershipComplete(H, t, i - 1);
    MembershipComplete(H, t, i);
    LeftMostExact(H, t, q);
    NeighborExact(H, t, p, q);
    if StepsFit(t, q) {
      ForkOfSuccessor(t, p, q);
    }
  }

  /** The steps to the last leaf all come from a right child, so they fit only short headers. */
  lemma {:induction false} LastPathFits(t: Iavl, p: seq<Side>)
    requires IsPosition(t, p) && Rank(t, p) == |Leaves(t)| - 1 && StepsFit(t, p)
    ensures PathHeadersAtMost(t, p, 11)
  {
    if t.Node? {
      LastPathFits(Child(t, p[0]), p[1..]);
    }
  }

  /** So does the step that leads from the right neighbour to the fork. */
  lemma {:induction false} ForkOfSuccessor(t: Iavl, p: seq<Side>, q: seq<Side>)
    requires IsPosition(t, p) && IsPosition(t, q) && Rank(t, q) == Rank(t, p) + 1 && StepsFit(t, q)
    ensures ForkShort(t, p, q)
  {
    if t.Node? && p[0] == q[0] {
      ForkOfSuccessor(Child(t, p[0]), p[1..], q[1..]);
    }
  }

  /** Completeness, exactly: the honest absence proof of any absent key of a sorted tree is
      accepted, and leads to the root, if and only if the gap is provable. */
  lemma NonMembershipComplete(H: Hash, t: Iavl, key: Bytes)
    requires WellFormed(t) && Sorted(t) && !HasKey(t, key)
    ensures var r := NonMembershipRoot(H, ProveAbsent(H, t, key));
            if GapProvable(t, InsertionRank(t, key, 0)) then r == Ok(RootHash(H, t)) else r.Revert?
  {
    hide NonMembershipRoot, GapProvable, Prove;
    var i := InsertionRank(t, key, 0);
    NeighborsEnclose(t, key);
    if i == 0 {
      FirstGap(H, t, key);
    } else if i == |Leaves(t)| {
      LastGap(H, t, key);
    } else {
      InnerGap(H, t, key, i);
    }
  }

  /** With headers of at most 11 bytes and non-empty keys every gap is provable. */
  lemma ShortHeadersProvable(t: Iavl, i: nat)
    requires HeadersAtMost(t, 11) && !HasKey(t, []) && i <= |Leaves(t)|
    ensures GapProvable(t, i)
  {
    if i > 0 {
      assert KeyAt(t, i - 1) != [];
      ShortHeadersFit(t, PositionOf(t, i - 1));
    }
    if i < |Leaves(t)| {
      ShortHeadersFit(t, PositionOf(t, i));
    }
    if 0 < i < |Leaves(t)| {
      ShortHeadersFork(t, PositionOf(t, i - 1), PositionOf(t, i));
    }
  }
}
