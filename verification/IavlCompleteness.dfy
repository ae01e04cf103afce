/** Which honest proofs are accepted, and what the padding tests of the verifier decide about where
    in the tree the proven leaves are. Both depend on the lengths of the inner headers. */
module IavlCompleteness {
  import opened Bytes
  import opened TreeVerifier
  import opened IavlTree
  import Varint

  // ------------------------------------------------------------------------ header lengths

  /** The step from a left child fits the 45 bytes of a prefix with a header of at most 44 bytes;
      the step from a right child carries the left sibling too and leaves 11. */
  predicate StepFits(t: Iavl, side: Side) {
    |t.header| <= if side.L? then 44 else 11
  }

  /** All steps of the position fit. */
  predicate StepsFit(t: Iavl, p: seq<Side>)
    requires IsPosition(t, p)
  {
    t.Node? ==> StepFits(t, p[0]) && StepsFit(Child(t, p[0]), p[1..])
  }

  /** The headers on the way to the position have at most `n` bytes. */
  predicate PathHeadersAtMost(t: Iavl, p: seq<Side>, n: nat)
    requires IsPosition(t, p)
  {
    t.Node? ==> |t.header| <= n && PathHeadersAtMost(Child(t, p[0]), p[1..], n)
  }

  lemma {:induction false} ShortHeadersFit(t: Iavl, p: seq<Side>)
    requires IsPosition(t, p) && HeadersAtMost(t, 11)
    ensures PathHeadersAtMost(t, p, 11) && StepsFit(t, p)
  {
    if t.Node? {
      ShortHeadersFit(Child(t, p[0]), p[1..]);
    }
  }

  lemma HeaderLength(t: Iavl)
    requires WellFormed(t)
    ensures |t.header| >= 3
  {
  }

  // --------------------------------------------------------------------------- existence

  lemma {:induction false} PositionDepth(t: Iavl, p: seq<Side>)
    requires IsPosition(t, p)
    ensures |p| <= Height(t)
  {
    if t.Node? {
      PositionDepth(Child(t, p[0]), p[1..]);
    }
  }

  /** An honest operation into a node, at a path index below its height, passes the checks exactly
      when its step fits. */
  lemma OpAccepted(H: Hash, t: Iavl, side: Side, i: nat)
    requires WellFormed(t) && t.Node? && i < Height(t)
    ensures CheckIAVLOp(Op(H, t, side), i) == if StepFits(t, side) then Ok(()) else Revert(InvalidInnerPrefixLength)
  {
    hide ValidateIAVLOpsSpec, WellFormed, Height;
    HeaderLength(t);
    var op := Op(H, t, side);
    var tail := if side.L? then [0x20] else [0x20] + RootHash(H, t.left) + [0x20];
    assert op.prefix == t.header + tail;
    HeaderValidates(t, tail, i);
  }

  /** The varints of a header are read from it whatever follows. */
  lemma HeaderValidates(t: Iavl, tail: Bytes, i: nat)
    requires WellFormed(t) && t.Node? && i < Height(t) && (|tail| == 1 || |tail| == 34)
    ensures ValidateIAVLOpsSpec(t.header + tail, i + 1) == Ok(())
  {
    VarintsEndExtends(t.header, tail, 0, 3);
    FirstVarintExtends(t.header, tail);
    hide VarintsEnd, FirstVarint;
  }

  lemma {:induction false} PathAccepted(H: Hash, t: Iavl, p: seq<Side>)
    requires WellFormed(t) && IsPosition(t, p)
    ensures FoldIAVL(H, RootHash(H, LeafAt(t, p)), Path(H, t, p)) ==
            if StepsFit(t, p) then Ok(RootHash(H, t)) else Revert(InvalidInnerPrefixLength)
  {
    if t.Node? {
      var child := Child(t, p[0]);
      PathAccepted(H, child, p[1..]);
      PathLast(H, t, p);
      PositionDepth(t, p);
      OpAccepted(H, t, p[0], |p| - 1);
      OpHashes(H, t, p[0]);
    }
  }

  lemma {:induction false} LeafWellFormed(t: Iavl, p: seq<Side>)
    requires WellFormed(t) && IsPosition(t, p)
    ensures WellFormed(LeafAt(t, p))
  {
    if t.Node? {
      LeafWellFormed(Child(t, p[0]), p[1..]);
    }
  }

  /** Completeness, exactly: the honest proof of a leaf is accepted, and leads to the root, if and
      only if the steps of its path fit. */
  lemma MembershipComplete(H: Hash, t: Iavl, i: nat)
    requires WellFormed(t) && i < |Leaves(t)|
    ensures ProofRoot(H, Prove(H, t, i)) ==
            if StepsFit(t, PositionOf(t, i)) then Ok(RootHash(H, t)) else Revert(InvalidInnerPrefixLength)
  {
    var p := PositionOf(t, i);
    LeafWellFormed(t, p);
    FirstVarintZero(LeafAt(t, p).header);
    PathAccepted(H, t, p);
  }

  /** Every leaf of a tree has an accepted proof exactly when no inner header exceeds 11 bytes. */
  lemma AllLeavesProvable(H: Hash, t: Iavl)
    requires WellFormed(t)
    ensures HeadersAtMost(t, 11) <==>
            forall i :: 0 <= i < |Leaves(t)| ==> ProofRoot(H, Prove(H, t, i)) == Ok(RootHash(H, t))
  {
    forall i | 0 <= i < |Leaves(t)|
      ensures ProofRoot(H, Prove(H, t, i)).Ok? <==> StepsFit(t, PositionOf(t, i))
      ensures HeadersAtMost(t, 11) ==> ProofRoot(H, Prove(H, t, i)) == Ok(RootHash(H, t))
    {
      MembershipComplete(H, t, i);
      if HeadersAtMost(t, 11) {
        ShortHeadersFit(t, PositionOf(t, i));
      }
    }
    if !HeadersAtMost(t, 11) {
      var i := LongHeaderLeaf(t);
      assert ProofRoot(H, Prove(H, t, i)) != Ok(RootHash(H, t));
    }
  }

  /** Below a long header there is a leaf whose path steps up from a right child there. */
  lemma {:induction false} LongHeaderLeaf(t: Iavl) returns (i: nat)
    requires !HeadersAtMost(t, 11)
    ensures i < |Leaves(t)| && !StepsFit(t, PositionOf(t, i))
  {
    if |t.header| > 11 {
      i := |Leaves(t.left)|;
    } else if !HeadersAtMost(t.left, 11) {
      i := LongHeaderLeaf(t.left);
      assert PositionOf(t, i)[1..] == PositionOf(t.left, i);
    } else {
      var j := LongHeaderLeaf(t.right);
      i := |Leaves(t.left)| + j;
      assert PositionOf(t, i)[1..] == PositionOf(t.right, j);
    }
  }

  /** Twelve bytes are too many: with this header the left leaf is provable and the right one is
      not. */
  lemma TwelveByteHeader(H: Hash, left: Iavl, right: Iavl)
    requires WellFormed(left) && WellFormed(right) && left.Leaf? && right.Leaf?
    ensures var header := [2, 0x80, 0x80, 0x80, 0x80, 0x80, 1, 0x80, 0x80, 0x80, 0x80, 1];
            var t := Node(header, left, right);
            && |header| == 12 && WellFormed(t)
            && ProofRoot(H, Prove(H, t, 0)) == Ok(RootHash(H, t))
            && ProofRoot(H, Prove(H, t, 1)) == Revert(InvalidInnerPrefixLength)
  {
    var h := [2, 0x80, 0x80, 0x80, 0x80, 0x80, 1, 0x80, 0x80, 0x80, 0x80, 1];
    var t := Node(h, left, right);
    Varints12(h);
    hide ProofRoot;
    MembershipComplete(H, t, 0);
    MembershipComplete(H, t, 1);
  }

  lemma Varints12(h: Bytes)
    requires h == [2, 0x80, 0x80, 0x80, 0x80, 0x80, 1, 0x80, 0x80, 0x80, 0x80, 1]
    ensures VarintsEnd(h, 0, 3) == Some(12) && FirstVarint(h) == 2
  {
    assert Varint.End(h, 0) == Some(1) && Varint.Value(h, 0, 1) == 2;
    assert Varint.End(h, 6) == Some(7);
    assert Varint.End(h, 5) == Some(7);
    assert Varint.End(h, 3) == Some(7);
    assert Varint.End(h, 1) == Some(7);
    assert Varint.End(h, 11) == Some(12);
    assert Varint.End(h, 10) == Some(12);
    assert Varint.End(h, 8) == Some(12);
    assert Varint.End(h, 7) == Some(12);
    assert VarintsEnd(h, 7, 1) == Some(12);
    assert VarintsEnd(h, 1, 2) == Some(12);
  }

  // ----------------------------------------------------------------- outermost positions

  /** All operations have left padding exactly on the first leaf's path with short headers. */
  lemma {:induction false} LeftMostExact(H: Hash, t: Iavl, p: seq<Side>)
    requires WellFormed(t) && IsPosition(t, p)
    ensures AllHavePadding(Path(H, t, p), 0) <==> Rank(t, p) == 0 && PathHeadersAtMost(t, p, 11)
  {
    if t.Node? {
      LeftMostExact(H, Child(t, p[0]), p[1..]);
      HeaderLength(t);
      OpPadding(H, t, p[0]);
      PathLast(H, t, p);
      SplitPadding(Path(H, t, p), 0);
    }
  }

  /** All operations have right padding exactly on the last leaf's path with short headers. */
  lemma {:induction false} RightMostExact(H: Hash, t: Iavl, p: seq<Side>)
    requires WellFormed(t) && IsPosition(t, p)
    ensures AllHavePadding(Path(H, t, p), 1) <==> Rank(t, p) == |Leaves(t)| - 1 && PathHeadersAtMost(t, p, 11)
  {
    if t.Node? {
      RightMostExact(H, Child(t, p[0]), p[1..]);
      HeaderLength(t);
      OpPadding(H, t, p[0]);
      PathLast(H, t, p);
      SplitPadding(Path(H, t, p), 1);
    }
  }

  lemma SplitPadding(path: seq<InnerOp>, branch: nat)
    requires branch < 2 && path != []
    ensures AllHavePadding(path, branch) <==>
            AllHavePadding(path[..|path| - 1], branch) && HasPadding(path[|path| - 1], GetPaddingIAVL(branch))
  {
    var last := |path| - 1;
    if AllHavePadding(path[..last], branch) && HasPadding(path[last], GetPaddingIAVL(branch)) {
      forall i | 0 <= i < |path| ensures HasPadding(path[i], GetPaddingIAVL(branch)) {
        if i < last {
          assert path[i] == path[..last][i];
        }
      }
    }
  }

  // ------------------------------------------------------------------------- neighbours

  /** The header of the node where the two positions part has at most 11 bytes. */
  predicate ForkShort(t: Iavl, p: seq<Side>, q: seq<Side>)
    requires IsPosition(t, p) && IsPosition(t, q)
  {
    t.Node? ==> if p[0] == q[0] then ForkShort(Child(t, p[0]), p[1..], q[1..]) else |t.header| <= 11
  }

  /** So have all headers below that node on both ways. */
  predicate BelowForkShort(t: Iavl, p: seq<Side>, q: seq<Side>)
    requires IsPosition(t, p) && IsPosition(t, q)
  {
    t.Node? ==>
      if p[0] == q[0] then BelowForkShort(Child(t, p[0]), p[1..], q[1..])
      else PathHeadersAtMost(Child(t, p[0]), p[1..], 11) && PathHeadersAtMost(Child(t, q[0]), q[1..], 11)
  }

  lemma {:induction false} ShortHeadersFork(t: Iavl, p: seq<Side>, q: seq<Side>)
    requires IsPosition(t, p) && IsPosition(t, q) && HeadersAtMost(t, 11)
    ensures ForkShort(t, p, q) && BelowForkShort(t, p, q)
  {
    if t.Leaf? {
    } else if p[0] == q[0] {
      ShortHeadersFork(Child(t, p[0]), p[1..], q[1..]);
    } else {
      ShortHeadersFit(Child(t, p[0]), p[1..]);
      ShortHeadersFit(Child(t, q[0]), q[1..]);
    }
  }

  /** The neighbour test on any two leaves: it reverts on one leaf and itself and where the header at
      the fork is long; otherwise it accepts exactly the direct successors with short headers
      below the fork. */
  lemma {:induction false} NeighborExact(H: Hash, t: Iavl, p: seq<Side>, q: seq<Side>)
    requires WellFormed(t) && IsPosition(t, p) && IsPosition(t, q)
    ensures LeftNeighbor(Path(H, t, p), Path(H, t, q)) ==
            if p == q then Revert(Panic)
            else if !ForkShort(t, p, q) then Revert(Reverted(""))
            else Ok(Rank(t, q) == Rank(t, p) + 1 && BelowForkShort(t, p, q))
  {
    if t.Leaf? {
    } else if p[0] == q[0] {
      NeighborBelow(H, t, p, q);
      NeighborExact(H, Child(t, p[0]), p[1..], q[1..]);
      assert p == [p[0]] + p[1..] && q == [q[0]] + q[1..];
    } else {
      NeighborFork(H, t, p, q);
    }
  }

  /** With headers of at most 11 bytes the test never reverts on two distinct leaves and accepts
      exactly the direct successors. */
  lemma NeighborOfShortHeaders(H: Hash, t: Iavl, p: seq<Side>, q: seq<Side>)
    requires WellFormed(t) && HeadersAtMost(t, 11) && IsPosition(t, p) && IsPosition(t, q) && p != q
    ensures LeftNeighbor(Path(H, t, p), Path(H, t, q)) == Ok(Rank(t, q) == Rank(t, p) + 1)
  {
    NeighborExact(H, t, p, q);
    ShortHeadersFork(t, p, q);
  }

  /** A step the two paths share is dropped. */
  lemma NeighborBelow(H: Hash, t: Iavl, p: seq<Side>, q: seq<Side>)
    requires IsPosition(t, p) && IsPosition(t, q)
    requires t.Node? && p[0] == q[0]
    ensures var child := Child(t, p[0]);
            LeftNeighbor(Path(H, t, p), Path(H, t, q)) ==
            LeftNeighbor(Path(H, child, p[1..]), Path(H, child, q[1..]))
  {
    PathLast(H, t, p);
    PathLast(H, t, q);
  }

  /** The case where the two paths part at the root. */
  lemma NeighborFork(H: Hash, t: Iavl, p: seq<Side>, q: seq<Side>)
    requires WellFormed(t) && IsPosition(t, p) && IsPosition(t, q)
    requires t.Node? && p[0] != q[0]
    ensures LeftNeighbor(Path(H, t, p), Path(H, t, q)) ==
            if |t.header| > 11 then Revert(Reverted(""))
            else Ok(Rank(t, q) == Rank(t, p) + 1 && BelowForkShort(t, p, q))
  {
    PathLast(H, t, p);
    PathLast(H, t, q);
    OpsDiffer(H, t);
    HeaderLength(t);
    ForkStep(H, t, p[0], q[0]);
    hide Path, PathHeadersAtMost, IsLeftStepIAVL, AllHavePadding, Op;
    if p[0].L? {
      RightMostExact(H, t.left, p[1..]);
      LeftMostExact(H, t.right, q[1..]);
    } else {
      assert Rank(t, q) < |Leaves(t.left)| <= Rank(t, p);
    }
  }

  /** Where two paths part, the step test tells the left child from the right one. */
  lemma ForkStep(H: Hash, t: Iavl, p: Side, q: Side)
    requires t.Node? && p != q
    ensures IsLeftStepIAVL(Op(H, t, p), Op(H, t, q)) ==
            if 3 <= |t.header| <= 11 then Ok(p == L) else Revert(Reverted(""))
  {
    OpPadding(H, t, p);
    OpPadding(H, t, q);
  }
}
