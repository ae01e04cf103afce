/** The formats the proof verifier accepts, spelled out: which existence and absence proofs pass its
    checks at all, and what it hashes. */
module ProofFormat {
  import opened Bytes
  import opened LexOrder
  import opened TreeVerifier
  import Varint

  /** The string of a leaf: prefix, length of the key, key, length and hash of the value. */
  lemma LeafString(H: Hash, prefix: Bytes, key: Bytes, value: Bytes)
    ensures LeafPreimage(H, prefix, key, value) == prefix + (Varint.Encode(|key|) + (key + ([0x20] + H(value))))
  {
    var a, b, d := prefix, Varint.Encode(|key|), [0x20] + H(value);
    assert a + (b + key) + d == a + (b + (key + d));
  }

  /** Three varints and a rest pass exactly when the first, as a uint256, is at least the bound and
      the rest has the length of a leaf (no byte) or of an inner node (1 or 34 bytes). */
  lemma ValidateIAVLOpsExact(x: nat, y: nat, z: nat, rest: Bytes, b: nat)
    ensures var prefix := Varint.Encode(x) + (Varint.Encode(y) + (Varint.Encode(z) + rest));
            ValidateIAVLOpsSpec(prefix, b) ==
            if x % TWO256 >= b && (if b == 0 then |rest| == 0 else |rest| == 1 || |rest| == 34) then Ok(())
            else Revert(InvalidIAVLOp)
  {
    hide Varint.Encode, VarintsEnd, Varint.End, Varint.Value, ValidateIAVLOpsSpec;
    var front, tail := Varint.Encode(x), Varint.Encode(z) + rest;
    var prefix := front + (Varint.Encode(y) + tail);
    EncodedAtStart(x, Varint.Encode(y) + tail);
    EncodedAt(front, y, tail);
    EncodedAfterTwo(front, Varint.Encode(y), z, rest);
    ThreeVarints(prefix, |front|, |front| + |Varint.Encode(y)|, |prefix| - |rest|);
    ValidatesBy(prefix, x, |front|, |rest|, b);
  }

  lemma ValidatesBy(prefix: Bytes, x: nat, i: nat, rest: nat, b: nat)
    requires i <= |prefix| && Varint.End(prefix, 0) == Some(i) && Varint.Value(prefix, 0, i) == x
    requires rest <= |prefix| && VarintsEnd(prefix, 0, 3) == Some(|prefix| - rest)
    ensures ValidateIAVLOpsSpec(prefix, b) ==
            if x % TWO256 >= b && (if b == 0 then rest == 0 else rest == 1 || rest == 34) then Ok(())
            else Revert(InvalidIAVLOp)
  {
    hide Varint.End, Varint.Value, VarintsEnd;
  }

  lemma EncodedAtStart(v: nat, back: Bytes)
    ensures var b := Varint.Encode(v) + back;
            Varint.End(b, 0) == Some(|Varint.Encode(v)|) && Varint.Value(b, 0, |Varint.Encode(v)|) == v
  {
    EncodedAt([], v, back);
    hide Varint.Encode, Varint.End, Varint.Value;
    assert [] + (Varint.Encode(v) + back) == Varint.Encode(v) + back;
  }

  lemma EncodedAfterTwo(f: Bytes, g: Bytes, v: nat, back: Bytes)
    ensures var b, i := f + (g + (Varint.Encode(v) + back)), |f| + |g|;
            Varint.End(b, i) == Some(i + |Varint.Encode(v)|)
  {
    EncodedAt(f + g, v, back);
    hide Varint.Encode, Varint.End, Varint.Value;
    assert (f + g) + (Varint.Encode(v) + back) == f + (g + (Varint.Encode(v) + back));
  }

  lemma EncodedAt(front: Bytes, v: nat, back: Bytes)
    ensures var b, i := front + (Varint.Encode(v) + back), |front|;
            Varint.End(b, i) == Some(i + |Varint.Encode(v)|) && Varint.Value(b, i, i + |Varint.Encode(v)|) == v
  {
    hide Varint.Encode, Varint.End, Varint.Value;
    var b, i := front + (Varint.Encode(v) + back), |front|;
    assert b[i..i + |Varint.Encode(v)|] == Varint.Encode(v);
    Varint.DecodeEncodeAt(b, i, v);
  }

  lemma ThreeVarints(b: Bytes, i: nat, j: nat, k: nat)
    requires Varint.End(b, 0) == Some(i) && Varint.End(b, i) == Some(j) && Varint.End(b, j) == Some(k)
    ensures VarintsEnd(b, 0, 3) == Some(k)
  {
    hide Varint.End;
    assert VarintsEnd(b, j, 1) == Some(k);
    assert VarintsEnd(b, i, 2) == Some(k);
  }

  /** A string in which fewer than three varints end is no prefix. */
  lemma {:induction false} UnfinishedVarints(b: Bytes, i: nat, k: nat)
    requires i <= |b| && k > 0 && forall n :: i <= n < |b| ==> b[n] >= 128
    ensures VarintsEnd(b, i, k).None?
    decreases |b| - i
  {
    NoEnd(b, i);
  }

  lemma {:induction false} NoEnd(b: Bytes, i: nat)
    requires i <= |b| && forall n :: i <= n < |b| ==> b[n] >= 128
    ensures Varint.End(b, i).None?
    decreases |b| - i
  {
    if i < |b| {
      NoEnd(b, i + 1);
    }
  }

  lemma {:induction false} FoldIAVLOk(H: Hash, h: Digest, path: seq<InnerOp>)
    ensures FoldIAVL(H, h, path).Ok? <==> forall i :: 0 <= i < |path| ==> CheckIAVLOp(path[i], i).Ok?
    decreases |path|
  {
    hide CheckIAVLOp;
    if path != [] {
      var last := |path| - 1;
      FoldIAVLOk(H, h, path[..last]);
      assert forall i :: 0 <= i < last ==> path[..last][i] == path[i];
    }
  }

  /** Which IAVL existence proofs lead to a root: those whose leaf prefix is a leaf's header and whose
      operations have a prefix of 4 to 45 bytes, with the header of a node above that index, and
      a suffix of whole children. */
  lemma IAVLProofAccepted(H: Hash, prefix: Bytes, key: Bytes, value: Bytes, path: seq<InnerOp>)
    ensures IAVLRoot(H, prefix, key, value, path).Ok? <==>
            && prefix != [] && prefix[0] == 0 && ValidateIAVLOpsSpec(prefix, 0).Ok?
            && forall i :: 0 <= i < |path| ==>
                 && 4 <= |path[i].prefix| <= 45 && |path[i].suffix| % 33 == 0
                 && ValidateIAVLOpsSpec(path[i].prefix, i + 1).Ok?
  {
    hide ValidateIAVLOpsSpec;
    FoldIAVLOk(H, H(LeafPreimage(H, prefix, key, value)), path);
  }

  lemma {:induction false} FoldSimpleOk(H: Hash, h: Digest, path: seq<InnerOp>)
    ensures FoldSimple(H, h, path).Ok? <==> forall i :: 0 <= i < |path| ==> CheckSimpleOp(path[i]).Ok?
    decreases |path|
  {
    hide CheckSimpleOp;
    if path != [] {
      var last := |path| - 1;
      FoldSimpleOk(H, h, path[..last]);
      assert forall i :: 0 <= i < last ==> path[..last][i] == path[i];
    }
  }

  lemma {:induction false} FoldSimpleReason(H: Hash, h: Digest, path: seq<InnerOp>)
    ensures FoldSimple(H, h, path).Revert? ==> FoldSimple(H, h, path) == Revert(TendermintSpecInvalidProof)
    decreases |path|
  {
    if path != [] {
      FoldSimpleReason(H, h, path[..|path| - 1]);
    }
  }

  /** Which simple tree proofs lead to a root; all others revert with one error. */
  lemma SimpleProofAccepted(H: Hash, prefix: Bytes, key: Bytes, value: Bytes, path: seq<InnerOp>)
    ensures SimpleRoot(H, prefix, key, value, path).Ok? <==>
            && prefix == [0]
            && forall i :: 0 <= i < |path| ==> 1 <= |path[i].prefix| <= 33 && |path[i].suffix| % 32 == 0
    ensures SimpleRoot(H, prefix, key, value, path).Revert? ==>
              SimpleRoot(H, prefix, key, value, path) == Revert(TendermintSpecInvalidProof)
  {
    FoldSimpleReason(H, H(LeafPreimage(H, prefix, key, value)), path);
    FoldSimpleOk(H, H(LeafPreimage(H, prefix, key, value)), path);
  }

  /** Which absence proofs lead to a root: both sides are IAVL proofs, a side without a key is no
      neighbour, the key lies between the neighbours, every neighbour leads to the root, and the
      neighbours are adjacent or outermost. */
  lemma AbsenceProofAccepted(H: Hash, proof: NonExistenceProof, root: Digest)
    ensures var left, right := proof.left, proof.right;
            NonMembershipRoot(H, proof) == Ok(root) <==>
            && left.spec == IAVLTree && right.spec == IAVLTree
            && (left.key != [] || right.key != [])
            && (left.key == [] || Before(left.key, proof.key)) && (right.key == [] || Before(proof.key, right.key))
            && (left.key != [] ==> ProofRoot(H, left) == Ok(root))
            && (right.key != [] ==> ProofRoot(H, right) == Ok(root))
            && (left.key == [] ==> AllHavePadding(right.path, 0))
            && (right.key == [] ==> AllHavePadding(left.path, 1))
            && (left.key != [] && right.key != [] ==> LeftNeighbor(left.path, right.path) == Ok(true))
  {
    hide ProofRoot, Before, AllHavePadding, LeftNeighbor;
  }

  // --------------------------------------------------------------------------- neighbours

  /** The lengths of the operations that step up from a left and from a right child. */
  lemma PaddingLengths(op: InnerOp)
    ensures HasPadding(op, GetPaddingIAVL(0)) <==> 4 <= |op.prefix| <= 12 && |op.suffix| == 33
    ensures HasPadding(op, GetPaddingIAVL(1)) <==> 37 <= |op.prefix| <= 45 && |op.suffix| == 0
  {
  }

  /** A step goes from left to right when the first operation has the lengths of a left child and
      the second those of a right one; lengths of neither revert. */
  lemma LeftStepExact(left: InnerOp, right: InnerOp)
    ensures var fromLeft := (op: InnerOp) => 4 <= |op.prefix| <= 12 && |op.suffix| == 33;
            var fromRight := (op: InnerOp) => 37 <= |op.prefix| <= 45 && |op.suffix| == 0;
            IsLeftStepIAVL(left, right) ==
            if (fromLeft(left) || fromRight(left)) && (fromLeft(right) || fromRight(right))
            then Ok(fromLeft(left) && fromRight(right)) else Revert(Reverted(""))
  {
  }

  /** The neighbour test on any two paths. Above the operations where they part they are equal; there
      they must step from left to right, and below stay right and left. */
  lemma {:induction false} NeighborsParted(l: seq<InnerOp>, x: InnerOp, r: seq<InnerOp>, y: InnerOp, top: seq<InnerOp>)
    requires x != y
    ensures LeftNeighbor(l + [x] + top, r + [y] + top) ==
            match IsLeftStepIAVL(x, y)
            case Revert(reason) => Revert(reason)
            case Ok(step) => Ok(step && AllHavePadding(l, 1) && AllHavePadding(r, 0))
    decreases |top|
  {
    hide IsLeftStepIAVL, AllHavePadding;
    var left, right := l + [x] + top, r + [y] + top;
    if top == [] {
      assert left == l + [x] && right == r + [y];
      assert left[..|left| - 1] == l && right[..|right| - 1] == r;
    } else {
      var n := |top| - 1;
      assert left[..|left| - 1] == l + [x] + top[..n] && right[..|right| - 1] == r + [y] + top[..n];
      NeighborsParted(l, x, r, y, top[..n]);
    }
  }

  /** When one path is the upper end of the other, the search runs out of operations. */
  lemma {:induction false} NeighborsExhausted(l: seq<InnerOp>, r: seq<InnerOp>, top: seq<InnerOp>)
    requires l == [] || r == []
    ensures LeftNeighbor(l + top, r + top) == Revert(Panic)
    decreases |top|
  {
    var left, right := l + top, r + top;
    if top == [] {
      assert left == l && right == r;
    } else {
      var n := |top| - 1;
      assert left[..|left| - 1] == l + top[..n] && right[..|right| - 1] == r + top[..n];
      NeighborsExhausted(l, r, top[..n]);
    }
  }

  // ------------------------------------------------------------------------- what is hashed

  /** The root of an accepted proof: the hash of the leaf string, then of prefix, child and suffix for
      one operation after the other. */
  lemma RootValue(H: Hash, prefix: Bytes, key: Bytes, value: Bytes, path: seq<InnerOp>, op: InnerOp)
    ensures IAVLRoot(H, prefix, key, value, []).Ok? ==>
              IAVLRoot(H, prefix, key, value, []) ==
              Ok(H(prefix + (Varint.Encode(|key|) + (key + ([0x20] + H(value))))))
    ensures IAVLRoot(H, prefix, key, value, path + [op]).Ok? ==>
              && IAVLRoot(H, prefix, key, value, path).Ok?
              && IAVLRoot(H, prefix, key, value, path + [op]) ==
                 Ok(H(op.prefix + IAVLRoot(H, prefix, key, value, path).value + op.suffix))
    ensures SimpleRoot(H, prefix, key, value, []).Ok? ==>
              SimpleRoot(H, prefix, key, value, []) ==
              Ok(H(prefix + (Varint.Encode(|key|) + (key + ([0x20] + H(value))))))
    ensures SimpleRoot(H, prefix, key, value, path + [op]).Ok? ==>
              && SimpleRoot(H, prefix, key, value, path).Ok?
              && SimpleRoot(H, prefix, key, value, path + [op]) ==
                 Ok(H(op.prefix + SimpleRoot(H, prefix, key, value, path).value + op.suffix))
  {
    LeafString(H, prefix, key, value);
    hide ValidateIAVLOpsSpec, CheckIAVLOp, CheckSimpleOp, LeafPreimage;
    assert (path + [op])[..|path|] == path;
  }

  /** The reason of the first operation that is refused. */
  lemma RefusedOperation(H: Hash, prefix: Bytes, key: Bytes, value: Bytes,
                         path: seq<InnerOp>, op: InnerOp, rest: seq<InnerOp>)
    requires IAVLRoot(H, prefix, key, value, path).Ok?
    ensures var r := IAVLRoot(H, prefix, key, value, path + [op] + rest);
            && (|op.prefix| < 4 || |op.prefix| > 45 ==> r == Revert(InvalidInnerPrefixLength))
            && (4 <= |op.prefix| <= 45 && |op.suffix| % 33 != 0 ==> r == Revert(InvalidInnerSuffixLength))
  {
    hide ValidateIAVLOpsSpec;
    var h, all := H(LeafPreimage(H, prefix, key, value)), path + [op] + rest;
    assert all[..|path| + 1] == path + [op] && (path + [op])[..|path|] == path;
    if FoldIAVL(H, h, path + [op]).Revert? {
      FoldIAVLReverts(H, h, all, |path| + 1);
    }
  }
}
