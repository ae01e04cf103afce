/** The trees IAVL proofs speak about: how their nodes are hashed, and the honest proof of each
    leaf. The node encodings are those of the IAVL proof specification that
    contracts/TendermintTreeVerifier.sol states above its verifier. */
module IavlTree {
  import opened Bytes
  import opened LexOrder
  import opened TreeVerifier
  import Varint

  /** `header` is the encoding of a node's height, size and version. */
  datatype Iavl =
    | Leaf(header: Bytes, key: Bytes, value: Bytes)
    | Node(header: Bytes, left: Iavl, right: Iavl)

  function Preimage(H: Hash, t: Iavl): Bytes
    decreases t, 0
  {
    match t
    case Leaf(header, key, value) => LeafPreimage(H, header, key, value)
    case Node(header, left, right) => header + [0x20] + RootHash(H, left) + [0x20] + RootHash(H, right)
  }

  function RootHash(H: Hash, t: Iavl): Digest
    decreases t, 1
  {
    H(Preimage(H, t))
  }

  /** Every string hashed to compute the root. */
  function Hashed(H: Hash, t: Iavl): set<Bytes> {
    match t
    case Leaf(_, _, value) => {Preimage(H, t), value}
    case Node(_, left, right) => {Preimage(H, t)} + Hashed(H, left) + Hashed(H, right)
  }

  function Height(t: Iavl): nat {
    match t
    case Leaf(_, _, _) => 0
    case Node(_, left, right) => 1 + (if Height(left) < Height(right) then Height(right) else Height(left))
  }

  /** Headers are three varints; a leaf's starts with a zero byte, the first varint of an inner
      node is at least its height. */
  predicate WellFormed(t: Iavl) {
    && VarintsEnd(t.header, 0, 3) == Some(|t.header|)
    && match t
       case Leaf(_, _, _) => t.header[0] == 0
       case Node(_, left, right) => FirstVarint(t.header) >= Height(t) && WellFormed(left) && WellFormed(right)
  }

  predicate HeadersAtMost(t: Iavl, n: nat) {
    t.Node? ==> |t.header| <= n && HeadersAtMost(t.left, n) && HeadersAtMost(t.right, n)
  }

  // -------------------------------------------------------------------------------- leaves

  /** The leaves from left to right. */
  function Leaves(t: Iavl): (r: seq<Iavl>)
    ensures r != [] && forall i :: 0 <= i < |r| ==> r[i].Leaf?
  {
    if t.Leaf? then [t] else Leaves(t.left) + Leaves(t.right)
  }

  function KeyAt(t: Iavl, i: nat): Bytes
    requires i < |Leaves(t)|
  {
    Leaves(t)[i].key
  }

  /** The keys increase from left to right. */
  ghost predicate Sorted(t: Iavl) {
    forall i, j :: 0 <= i < j < |Leaves(t)| ==> Before(KeyAt(t, i), KeyAt(t, j))
  }

  ghost predicate HasKey(t: Iavl, key: Bytes) {
    exists i :: 0 <= i < |Leaves(t)| && KeyAt(t, i) == key
  }

  /** The tree maps `key` to `value`. */
  ghost predicate Maps(t: Iavl, key: Bytes, value: Bytes) {
    exists i :: 0 <= i < |Leaves(t)| && KeyAt(t, i) == key && Leaves(t)[i].value == value
  }

  // ------------------------------------------------------------------------------ positions

  datatype Side = L | R

  function Child(t: Iavl, side: Side): Iavl
    requires t.Node?
  {
    if side.L? then t.left else t.right
  }

  /** `p` leads from the root to a leaf. */
  predicate IsPosition(t: Iavl, p: seq<Side>) {
    if t.Leaf? then p == [] else p != [] && IsPosition(Child(t, p[0]), p[1..])
  }

  /** The number of leaves left of the position. */
  function Rank(t: Iavl, p: seq<Side>): (r: nat)
    requires IsPosition(t, p)
    ensures r < |Leaves(t)|
  {
    if t.Leaf? then 0
    else if p[0].L? then Rank(t.left, p[1..])
    else |Leaves(t.left)| + Rank(t.right, p[1..])
  }

  function PositionOf(t: Iavl, i: nat): (p: seq<Side>)
    requires i < |Leaves(t)|
    ensures IsPosition(t, p) && Rank(t, p) == i
  {
    if t.Leaf? then []
    else if i < |Leaves(t.left)| then [L] + PositionOf(t.left, i)
    else [R] + PositionOf(t.right, i - |Leaves(t.left)|)
  }

  function LeafAt(t: Iavl, p: seq<Side>): (r: Iavl)
    requires IsPosition(t, p)
    ensures r == Leaves(t)[Rank(t, p)]
  {
    if t.Leaf? then t else LeafAt(Child(t, p[0]), p[1..])
  }

  // --------------------------------------------------------------------------- honest proofs

  /** The operation from the child on `side` to its parent. */
  function Op(H: Hash, t: Iavl, side: Side): InnerOp
    requires t.Node?
  {
    if side.L? then InnerOp(t.header + [0x20], [0x20] + RootHash(H, t.right))
    else InnerOp(t.header + [0x20] + RootHash(H, t.left) + [0x20], [])
  }

  /** The operations from a leaf up to the root. */
  function Path(H: Hash, t: Iavl, p: seq<Side>): (r: seq<InnerOp>)
    requires IsPosition(t, p)
    ensures |r| == |p|
  {
    if t.Leaf? then []
    else Path(H, Child(t, p[0]), p[1..]) + [Op(H, t, p[0])]
  }

  /** The honest existence proof of the leaf with rank `i`. */
  function Prove(H: Hash, t: Iavl, i: nat): ExistenceProof
    requires i < |Leaves(t)|
  {
    var leaf := Leaves(t)[i];
    ExistenceProof(IAVLTree, leaf.header, leaf.key, leaf.value, Path(H, t, PositionOf(t, i)))
  }

  lemma OpHashes(H: Hash, t: Iavl, side: Side)
    requires t.Node?
    ensures OpPreimage(Op(H, t, side), RootHash(H, Child(t, side))) == Preimage(H, t)
  {
    assert OpPreimage(Op(H, t, side), RootHash(H, Child(t, side))) == Preimage(H, t);
  }

  /** The last operation of a path belongs to the root, the others to the child. */
  lemma PathLast(H: Hash, t: Iavl, p: seq<Side>)
    requires IsPosition(t, p) && t.Node?
    ensures var path := Path(H, t, p);
            && path[|path| - 1] == Op(H, t, p[0])
            && path[..|path| - 1] == Path(H, Child(t, p[0]), p[1..])
  {
  }

  /** The two operations into one node differ, whatever the hashes are. */
  lemma OpsDiffer(H: Hash, t: Iavl)
    requires t.Node?
    ensures Op(H, t, L) != Op(H, t, R)
  {
    assert |Op(H, t, L).suffix| == 33 && |Op(H, t, R).suffix| == 0;
  }

  /** The padding test recognizes the side of an honest operation. */
  lemma OpPadding(H: Hash, t: Iavl, side: Side)
    requires t.Node?
    ensures HasPadding(Op(H, t, side), GetPaddingIAVL(0)) <==> side == L && 3 <= |t.header| <= 11
    ensures HasPadding(Op(H, t, side), GetPaddingIAVL(1)) <==> side == R && 3 <= |t.header| <= 11
  {
  }

  // ------------------------------------------------------------------------- header parsing

  lemma {:induction false} VarintsEndExtends(b: Bytes, rest: Bytes, i: nat, k: nat)
    requires i <= |b| && VarintsEnd(b, i, k).Some?
    ensures VarintsEnd(b + rest, i, k) == VarintsEnd(b, i, k)
    decreases k
  {
    if k > 0 {
      var j := Varint.End(b, i).value;
      assert b[i..j] == (b + rest)[i..j];
      Varint.EndLocal(b, i, b + rest, i);
      VarintsEndExtends(b, rest, j, k - 1);
    }
  }

  lemma FirstVarintExtends(b: Bytes, rest: Bytes)
    requires Varint.End(b, 0).Some?
    ensures Varint.End(b + rest, 0).Some? && FirstVarint(b + rest) == FirstVarint(b)
  {
    var j := Varint.End(b, 0).value;
    assert b[0..j] == (b + rest)[0..j];
    Varint.EndLocal(b, 0, b + rest, 0);
  }

  /** The first varint is zero when the first byte is. */
  lemma FirstVarintZero(b: Bytes)
    requires b != [] && b[0] == 0
    ensures Varint.End(b, 0).Some? && FirstVarint(b) == 0
  {
    assert Varint.Value(b, 0, 1) == 0;
  }

  /** Two equal strings that start with three varints have the same three varints. */
  lemma HeaderUnique(b: Bytes, c: Bytes, r: Bytes, s: Bytes)
    requires b + r == c + s
    requires VarintsEnd(b, 0, 3).Some? && VarintsEnd(c, 0, 3).Some?
    ensures VarintsEnd(b, 0, 3) == VarintsEnd(c, 0, 3)
    ensures var n := VarintsEnd(b, 0, 3).value; b[..n] == c[..n]
  {
    VarintsEndExtends(b, r, 0, 3);
    VarintsEndExtends(c, s, 0, 3);
    var n := VarintsEnd(b, 0, 3).value;
    assert b[..n] == (b + r)[..n] == (c + s)[..n] == c[..n];
  }
}
