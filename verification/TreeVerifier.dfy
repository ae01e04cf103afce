/** The ICS-23 proof verifier of contracts/TendermintTreeVerifier.sol. Each loop of the contract
    is a method; the function of the same name (with a `Spec` ending) says what it computes. */
module TreeVerifier {
  import opened Bytes
  import opened LexOrder
  import Varint

  datatype ProofSpec = NoSpec | SimpleTree | IAVLTree

  datatype InnerOp = InnerOp(prefix: Bytes, suffix: Bytes)

  datatype ExistenceProof =
    ExistenceProof(spec: ProofSpec, prefix: Bytes, key: Bytes, value: Bytes, path: seq<InnerOp>)

  datatype NonExistenceProof =
    NonExistenceProof(key: Bytes, left: ExistenceProof, right: ExistenceProof)

  // ---------------------------------------------------------------- leaf data and IAVL headers

  function PrepareLeafData(data: Bytes): Bytes {
    Varint.Encode(|data|) + data
  }

  function LeafPreimage(H: Hash, prefix: Bytes, key: Bytes, value: Bytes): Bytes {
    prefix + PrepareLeafData(key) + ([0x20] + H(value))
  }

  function OpPreimage(op: InnerOp, h: Digest): Bytes {
    op.prefix + h + op.suffix
  }

  /** The index just past `k` consecutive varints that start at index `i`. */
  function VarintsEnd(b: Bytes, i: nat, k: nat): (r: Option<nat>)
    requires i <= |b|
    ensures r.Some? ==> i + k <= r.value <= |b|
    decreases k
  {
    if k == 0 then Some(i)
    else match Varint.End(b, i)
      case None => None
      case Some(j) => VarintsEnd(b, j, k - 1)
  }

  /** The value of the varint `b` starts with, as a uint256. */
  function FirstVarint(b: Bytes): nat
    requires Varint.End(b, 0).Some?
  {
    Varint.Value(b, 0, Varint.End(b, 0).value) % TWO256
  }

  /** `prefix` is three varints, the first at least `b`, then nothing for a leaf (`b == 0`) and
      1 or 34 bytes for an inner node. */
  function ValidateIAVLOpsSpec(prefix: Bytes, b: nat): Outcome<()> {
    match VarintsEnd(prefix, 0, 3)
    case None => Revert(VarintOutOfBounds)
    case Some(n) =>
      var rest := |prefix| - n;
      if FirstVarint(prefix) < b then Revert(InvalidIAVLOp)
      else if (if b == 0 then rest == 0 else rest == 1 || rest == 34) then Ok(())
      else Revert(InvalidIAVLOp)
  }

  method ValidateIAVLOps(prefix: Bytes, b: nat) returns (r: Outcome<()>)
    ensures r == ValidateIAVLOpsSpec(prefix, b)
  {
    var ptr := 0;
    var values := new nat[3](_ => 0);
    for i := 0 to 3
      invariant 0 <= ptr <= |prefix|
      invariant VarintsEnd(prefix, 0, 3) == VarintsEnd(prefix, ptr, 3 - i)
      invariant i == 0 ==> ptr == 0
      invariant i > 0 ==> Varint.End(prefix, 0).Some? && values[0] == FirstVarint(prefix)
    {
      var end := Varint.End(prefix, ptr);
      if end.None? {
        return Revert(VarintOutOfBounds);
      }
      values[i] := Varint.Value(prefix, ptr, end.value) % TWO256;
      ptr := end.value;
    }
    if values[0] < b {
      return Revert(InvalidIAVLOp);
    }
    var r2 := |prefix| - ptr;
    if b == 0 {
      if r2 != 0 {
        return Revert(InvalidIAVLOp);
      }
    } else if !(r2 == 1 || r2 == 34) {
      return Revert(InvalidIAVLOp);
    }
    return Ok(());
  }

  // ------------------------------------------------------------------------------ existence

  /** The checks on the inner operation at index `i` of an IAVL path. */
  function CheckIAVLOp(op: InnerOp, i: nat): Outcome<()> {
    if |op.prefix| < 4 || |op.prefix| > 45 then Revert(InvalidInnerPrefixLength)
    else if |op.suffix| % 33 != 0 then Revert(InvalidInnerSuffixLength)
    else ValidateIAVLOpsSpec(op.prefix, i + 1)
  }

  /** The hash reached from the leaf hash `h` by a path, deepest operation first. */
  function FoldIAVL(H: Hash, h: Digest, path: seq<InnerOp>): Outcome<Digest>
    decreases |path|
  {
    if path == [] then Ok(h)
    else
      var last := |path| - 1;
      var child :- FoldIAVL(H, h, path[..last]);
      var _ :- CheckIAVLOp(path[last], last);
      Ok(H(OpPreimage(path[last], child)))
  }

  /** verifyMembershipIAVLSpec: the root an IAVL existence proof leads to. */
  function IAVLRoot(H: Hash, prefix: Bytes, key: Bytes, value: Bytes, path: seq<InnerOp>): Outcome<Digest> {
    if prefix == [] then Revert(Panic)
    else if prefix[0] != 0 then Revert(IAVLSpecInvalidProof)
    else
      var _ :- ValidateIAVLOpsSpec(prefix, 0);
      FoldIAVL(H, H(LeafPreimage(H, prefix, key, value)), path)
  }

  /** A path whose first operations revert reverts for the same reason. */
  lemma {:induction false} FoldIAVLReverts(H: Hash, h: Digest, path: seq<InnerOp>, n: nat)
    requires n <= |path|
    requires FoldIAVL(H, h, path[..n]).Revert?
    ensures FoldIAVL(H, h, path) == FoldIAVL(H, h, path[..n])
    decreases |path|
  {
    if n == |path| {
      assert path[..n] == path;
    } else {
      assert path[..|path| - 1][..n] == path[..n];
      FoldIAVLReverts(H, h, path[..|path| - 1], n);
    }
  }

  method VerifyMembershipIAVLSpec(H: Hash, prefix: Bytes, key: Bytes, value: Bytes, path: seq<InnerOp>)
    returns (r: Outcome<Digest>)
    ensures r == IAVLRoot(H, prefix, key, value, path)
  {
    if prefix == [] {
      return Revert(Panic);
    }
    if prefix[0] != 0 {
      return Revert(IAVLSpecInvalidProof);
    }
    var _ :- ValidateIAVLOps(prefix, 0);
    ghost var leafHash := H(LeafPreimage(H, prefix, key, value));
    var h := H(prefix + PrepareLeafData(key) + ([0x20] + H(value)));
    for i := 0 to |path|
      invariant FoldIAVL(H, leafHash, path[..i]) == Ok(h)
    {
      assert path[..i + 1][..i] == path[..i];
      if FoldIAVL(H, leafHash, path[..i + 1]).Revert? {
        FoldIAVLReverts(H, leafHash, path, i + 1);
      }
      var innerPrefix := path[i].prefix;
      if |innerPrefix| < 4 {
        return Revert(InvalidInnerPrefixLength);
      } else if |innerPrefix| > 45 {
        return Revert(InvalidInnerPrefixLength);
      }
      if |path[i].suffix| % 33 != 0 {
        return Revert(InvalidInnerSuffixLength);
      }
      var _ :- ValidateIAVLOps(innerPrefix, i + 1);
      h := H(innerPrefix + h + path[i].suffix);
    }
    assert path[..|path|] == path;
    return Ok(h);
  }

  function CheckSimpleOp(op: InnerOp): Outcome<()> {
    if |op.prefix| < 1 || |op.prefix| > 33 || |op.suffix| % 32 != 0
    then Revert(TendermintSpecInvalidProof) else Ok(())
  }

  function FoldSimple(H: Hash, h: Digest, path: seq<InnerOp>): Outcome<Digest>
    decreases |path|
  {
    if path == [] then Ok(h)
    else
      var last := |path| - 1;
      var child :- FoldSimple(H, h, path[..last]);
      var _ :- CheckSimpleOp(path[last]);
      Ok(H(OpPreimage(path[last], child)))
  }

  /** verifyMembershipTendermintSpec: the root a simple tree existence proof leads to. */
  function SimpleRoot(H: Hash, prefix: Bytes, key: Bytes, value: Bytes, path: seq<InnerOp>): Outcome<Digest> {
    if |prefix| != 1 || prefix[0] != 0 then Revert(TendermintSpecInvalidProof)
    else FoldSimple(H, H(LeafPreimage(H, prefix, key, value)), path)
  }

  lemma {:induction false} FoldSimpleReverts(H: Hash, h: Digest, path: seq<InnerOp>, n: nat)
    requires n <= |path|
    requires FoldSimple(H, h, path[..n]).Revert?
    ensures FoldSimple(H, h, path) == FoldSimple(H, h, path[..n])
    decreases |path|
  {
    if n == |path| {
      assert path[..n] == path;
    } else {
      assert path[..|path| - 1][..n] == path[..n];
      FoldSimpleReverts(H, h, path[..|path| - 1], n);
    }
  }

  method VerifyMembershipTendermintSpec(H: Hash, prefix: Bytes, key: Bytes, value: Bytes, path: seq<InnerOp>)
    returns (r: Outcome<Digest>)
    ensures r == SimpleRoot(H, prefix, key, value, path)
  {
    if |prefix| != 1 {
      return Revert(TendermintSpecInvalidProof);
    } else if prefix[0] != 0 {
      return Revert(TendermintSpecInvalidProof);
    }
    ghost var leafHash := H(LeafPreimage(H, prefix, key, value));
    var h := H(prefix + PrepareLeafData(key) + ([0x20] + H(value)));
    for i := 0 to |path|
      invariant FoldSimple(H, leafHash, path[..i]) == Ok(h)
    {
      assert path[..i + 1][..i] == path[..i];
      if FoldSimple(H, leafHash, path[..i + 1]).Revert? {
        FoldSimpleReverts(H, leafHash, path, i + 1);
      }
      var p := path[i].prefix;
      if |p| < 1 {
        return Revert(TendermintSpecInvalidProof);
      } else if |p| > 33 {
        return Revert(TendermintSpecInvalidProof);
      }
      if |path[i].suffix| % 32 != 0 {
        return Revert(TendermintSpecInvalidProof);
      }
      h := H(p + h + path[i].suffix);
    }
    assert path[..|path|] == path;
    return Ok(h);
  }

  // --------------------------------------------------------------------------- neighbours

  /** The lengths an operation has when the proven child is child `branch`:
      shortest prefix, longest prefix, suffix. */
  function GetPaddingIAVL(branch: nat): (nat, nat, nat)
    requires branch < 2
  {
    var prefix := branch * 33;
    (prefix + 4, prefix + 12, (1 - branch) * 33)
  }

  predicate HasPadding(op: InnerOp, padding: (nat, nat, nat)) {
    padding.0 <= |op.prefix| <= padding.1 && |op.suffix| == padding.2
  }

  /** Every operation has the padding of child `branch`. */
  predicate AllHavePadding(path: seq<InnerOp>, branch: nat)
    requires branch < 2
  {
    forall i :: 0 <= i < |path| ==> HasPadding(path[i], GetPaddingIAVL(branch))
  }

  method IsLeftMostIAVL(rightPath: seq<InnerOp>, maxLen: nat) returns (r: bool)
    requires maxLen <= |rightPath|
    ensures r <==> AllHavePadding(rightPath[..maxLen], 0)
  {
    var padding := GetPaddingIAVL(0);
    for i := 0 to maxLen
      invariant AllHavePadding(rightPath[..i], 0)
    {
      if !HasPadding(rightPath[i], padding) {
        assert !HasPadding(rightPath[..maxLen][i], padding);
        return false;
      }
    }
    return true;
  }

  method IsRightMostIAVL(leftPath: seq<InnerOp>, maxLen: nat) returns (r: bool)
    requires maxLen <= |leftPath|
    ensures r <==> AllHavePadding(leftPath[..maxLen], 1)
  {
    var padding := GetPaddingIAVL(1);
    for i := 0 to maxLen
      invariant AllHavePadding(leftPath[..i], 1)
    {
      if !HasPadding(leftPath[i], padding) {
        assert !HasPadding(leftPath[..maxLen][i], padding);
        return false;
      }
    }
    return true;
  }

  /** The first child index whose padding fits. */
  function OrderFromPaddingIAVL(inner: InnerOp): Outcome<nat> {
    if HasPadding(inner, GetPaddingIAVL(0)) then Ok(0)
    else if HasPadding(inner, GetPaddingIAVL(1)) then Ok(1)
    else Revert(Reverted(""))
  }

  function IsLeftStepIAVL(left: InnerOp, right: InnerOp): Outcome<bool> {
    var r :- OrderFromPaddingIAVL(right);
    var l :- OrderFromPaddingIAVL(left);
    Ok(r == l + 1)
  }

  /** isLeftNeighborIAVL: drop the operations shared at the root end; the first that differ must
      step from a left to a right child, below them the left path stays right and the right path
      stays left. Running out of operations is an underflow. */
  function LeftNeighbor(left: seq<InnerOp>, right: seq<InnerOp>): Outcome<bool> {
    if left == [] || right == [] then Revert(Panic)
    else
      var l, r := |left| - 1, |right| - 1;
      if left[l] == right[r] then LeftNeighbor(left[..l], right[..r])
      else
        var step :- IsLeftStepIAVL(left[l], right[r]);
        Ok(step && AllHavePadding(left[..l], 1) && AllHavePadding(right[..r], 0))
  }

  method IsLeftNeighborIAVL(leftPath: seq<InnerOp>, rightPath: seq<InnerOp>) returns (r: Outcome<bool>)
    ensures r == LeftNeighbor(leftPath, rightPath)
  {
    if |leftPath| == 0 || |rightPath| == 0 {
      return Revert(Panic);
    }
    var leftIdx, rightIdx := |leftPath| - 1, |rightPath| - 1;
    hide IsLeftStepIAVL, HasPadding;
    assert leftPath[..leftIdx + 1] == leftPath && rightPath[..rightIdx + 1] == rightPath;
    while leftPath[leftIdx].prefix == rightPath[rightIdx].prefix
          && leftPath[leftIdx].suffix == rightPath[rightIdx].suffix
      invariant 0 <= leftIdx < |leftPath| && 0 <= rightIdx < |rightPath|
      invariant LeftNeighbor(leftPath, rightPath) ==
                LeftNeighbor(leftPath[..leftIdx + 1], rightPath[..rightIdx + 1])
      decreases leftIdx
    {
      assert leftPath[..leftIdx + 1][..leftIdx] == leftPath[..leftIdx];
      assert rightPath[..rightIdx + 1][..rightIdx] == rightPath[..rightIdx];
      if leftIdx == 0 || rightIdx == 0 {
        return Revert(Panic);
      }
      leftIdx := leftIdx - 1;
      rightIdx := rightIdx - 1;
    }
    assert leftPath[..leftIdx + 1][..leftIdx] == leftPath[..leftIdx];
    assert rightPath[..rightIdx + 1][..rightIdx] == rightPath[..rightIdx];
    var step :- IsLeftStepIAVL(leftPath[leftIdx], rightPath[rightIdx]);
    if !step {
      return Ok(false);
    }
    var rightMost := IsRightMostIAVL(leftPath, leftIdx);
    if !rightMost {
      return Ok(false);
    }
    var leftMost := IsLeftMostIAVL(rightPath, rightIdx);
    return Ok(leftMost);
  }

  // --------------------------------------------------------------------------- non-existence

  /** The target lies strictly between the two neighbours; an empty neighbour is no bound. */
  predicate KeysInValidRange(leftKey: Bytes, targetKey: Bytes, rightKey: Bytes) {
    && (leftKey == [] || Before(leftKey, targetKey))
    && (rightKey == [] || Before(targetKey, rightKey))
  }

  method EnsureKeysInValidRange(leftKey: Bytes, targetKey: Bytes, rightKey: Bytes) returns (r: Outcome<()>)
    ensures r == Require(KeysInValidRange(leftKey, targetKey, rightKey), Reverted("F"))
  {
    var left := -1;
    if |leftKey| != 0 {
      left := BytesCompare(leftKey, targetKey);
    }
    if left < 0 {
      var right := -1;
      if |rightKey| != 0 {
        right := BytesCompare(targetKey, rightKey);
      }
      if right < 0 {
        return Ok(());
      }
    }
    return Revert(Reverted("F"));
  }

  function ProofRoot(H: Hash, p: ExistenceProof): Outcome<Digest> {
    IAVLRoot(H, p.prefix, p.key, p.value, p.path)
  }

  /** The root both given neighbours lead to. */
  function NeighborsRoot(H: Hash, left: ExistenceProof, right: ExistenceProof): Outcome<Digest>
    requires left.key != [] || right.key != []
  {
    if left.key == [] then ProofRoot(H, right)
    else
      var root :- ProofRoot(H, left);
      if right.key == [] then Ok(root)
      else
        var root1 :- ProofRoot(H, right);
        if root == root1 then Ok(root) else Revert(Reverted("root != root1"))
  }

  /** No leaf lies between the two neighbours (outermost on the side of a missing one). */
  function NeighborsAdjacent(left: ExistenceProof, right: ExistenceProof): Outcome<bool>
    requires left.key != [] || right.key != []
  {
    if left.key == [] then Ok(AllHavePadding(right.path, 0))
    else if right.key == [] then Ok(AllHavePadding(left.path, 1))
    else LeftNeighbor(left.path, right.path)
  }

  /** verifyNonMembershipIAVL: the root under which the key of `proof` is absent. */
  function NonMembershipRoot(H: Hash, proof: NonExistenceProof): Outcome<Digest> {
    var left, right := proof.left, proof.right;
    var _ :- Require(left.spec == right.spec, RequireFailed);
    var _ :- Require(left.spec == IAVLTree, RequireFailed);
    if left.key == [] && right.key == [] then Revert(Reverted("both proofs are nil"))
    else
      var _ :- Require(KeysInValidRange(left.key, proof.key, right.key), Reverted("F"));
      var root :- NeighborsRoot(H, left, right);
      var adjacent :- NeighborsAdjacent(left, right);
      if adjacent then Ok(root) else Revert(Reverted(""))
  }

  method VerifyNonMembershipIAVL(H: Hash, proof: NonExistenceProof) returns (r: Outcome<Digest>)
    ensures r == NonMembershipRoot(H, proof)
  {
    var left, right := proof.left, proof.right;
    var _ :- Require(left.spec == right.spec, RequireFailed);
    var _ :- Require(left.spec == IAVLTree, RequireFailed);
    var root: Digest := Zeros(32);
    var isLeftNil, isRightNil := |left.key| == 0, |right.key| == 0;
    if isLeftNil && isRightNil {
      return Revert(Reverted("both proofs are nil"));
    }
    var _ :- EnsureKeysInValidRange(left.key, proof.key, right.key);
    if !isLeftNil {
      root :- VerifyMembershipIAVLSpec(H, left.prefix, left.key, left.value, left.path);
    }
    if !isRightNil {
      var root1 :- VerifyMembershipIAVLSpec(H, right.prefix, right.key, right.value, right.path);
      if isLeftNil {
        root := root1;
      } else if root != root1 {
        return Revert(Reverted("root != root1"));
      }
    }
    var adjacent;
    if isLeftNil {
      adjacent := IsLeftMostIAVL(right.path, |right.path|);
      assert right.path[..|right.path|] == right.path;
    } else if isRightNil {
      adjacent := IsRightMostIAVL(left.path, |left.path|);
      assert left.path[..|left.path|] == left.path;
    } else {
      adjacent :- IsLeftNeighborIAVL(left.path, right.path);
    }
    if !adjacent {
      return Revert(Reverted(""));
    }
    return Ok(root);
  }
}
