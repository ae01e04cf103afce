/** The tree of stores behind an app hash, and what an accepted simple tree proof says about it.
    The node encodings are those of the simple tree proof specification in
    contracts/TendermintTreeVerifier.sol. */
module SimpleTree {
  import opened Bytes
  import opened TreeVerifier
  import opened ProofFormat
  import Varint

  /** A leaf maps a store name to the root of that store. */
  datatype Simple =
    | Leaf(name: Bytes, root: Digest)
    | Node(left: Simple, right: Simple)

  function Preimage(H: Hash, s: Simple): Bytes
    decreases s, 0
  {
    match s
    case Leaf(name, root) => LeafPreimage(H, [0], name, root)
    case Node(left, right) => [1] + RootHash(H, left) + RootHash(H, right)
  }

  function RootHash(H: Hash, s: Simple): Digest
    decreases s, 1
  {
    H(Preimage(H, s))
  }

  /** Every string hashed to compute the root. */
  function Hashed(H: Hash, s: Simple): set<Bytes> {
    match s
    case Leaf(_, root) => {Preimage(H, s), root}
    case Node(left, right) => {Preimage(H, s)} + Hashed(H, left) + Hashed(H, right)
  }

  predicate NamesBelow(s: Simple, n: nat) {
    match s
    case Leaf(name, _) => |name| < n
    case Node(left, right) => NamesBelow(left, n) && NamesBelow(right, n)
  }

  predicate Maps(s: Simple, name: Bytes, root: Bytes) {
    match s
    case Leaf(name', root') => name == name' && root == root'
    case Node(left, right) => Maps(left, name, root) || Maps(right, name, root)
  }

  // -------------------------------------------------------------------- the strings hashed

  ghost function HashedByPath(H: Hash, h: Digest, path: seq<InnerOp>): set<Bytes>
    decreases |path|
  {
    if path == [] then {}
    else
      var last := |path| - 1;
      match FoldSimple(H, h, path[..last])
      case Revert(_) => {}
      case Ok(child) => HashedByPath(H, h, path[..last]) + {OpPreimage(path[last], child)}
  }

  /** The strings the verifier hashes for one simple tree proof. */
  ghost function HashedByProof(H: Hash, prefix: Bytes, key: Bytes, value: Bytes, path: seq<InnerOp>): set<Bytes> {
    var leaf := LeafPreimage(H, prefix, key, value);
    {leaf, value} + HashedByPath(H, H(leaf), path)
  }

  // ----------------------------------------------------------------------- one node at a time

  lemma LeafParts(H: Hash, key: Bytes, value: Bytes)
    ensures LeafPreimage(H, [0], key, value) == [0] + (Varint.Encode(|key|) + (key + ([0x20] + H(value))))
  {
    LeafString(H, [0], key, value);
  }

  /** A leaf string equal to a node's string makes the node that leaf. */
  lemma LeafStep(H: Hash, s: Simple, prefix: Bytes, key: Bytes, value: Bytes)
    requires |prefix| == 1 && prefix[0] == 0
    requires LeafPreimage(H, prefix, key, value) == Preimage(H, s)
    ensures s.Leaf? && key == s.name && H(value) == H(s.root)
  {
    assert prefix == [0];
    LeafParts(H, key, value);
    assert Preimage(H, s)[0] == 0;
    var mine := Varint.Encode(|key|) + (key + ([0x20] + H(value)));
    LeafParts(H, s.name, s.root);
    var its := Varint.Encode(|s.name|) + (s.name + ([0x20] + H(s.root)));
    SplitConcat([0], mine, [0], its);
    Varint.EncodeInjective(|key|, |s.name|, key + ([0x20] + H(value)), s.name + ([0x20] + H(s.root)));
    SplitConcat(key, [0x20] + H(value), s.name, [0x20] + H(s.root));
    SplitConcat([0x20], H(value), [0x20], H(s.root));
  }

  /** An accepted operation whose string equals an inner node's string combines the hash of one
      child with the other child. */
  lemma NodeStep(H: Hash, s: Simple, op: InnerOp, h: Digest)
    requires s.Node? && CheckSimpleOp(op).Ok?
    requires OpPreimage(op, h) == Preimage(H, s)
    ensures h == RootHash(H, s.left) || h == RootHash(H, s.right)
  {
    var l: Bytes, r: Bytes := RootHash(H, s.left), RootHash(H, s.right);
    assert op.prefix + (h + op.suffix) == OpPreimage(op, h);
    if |op.suffix| == 0 {
      assert OpPreimage(op, h) == op.prefix + h;
      SplitConcat(op.prefix, h, [1] + l, r);
    } else {
      assert |op.suffix| == 32;
      assert [1] + l + r == [1] + (l + r);
      SplitConcat(op.prefix, h + op.suffix, [1], l + r);
      SplitConcat(h, op.suffix, l, r);
    }
  }

  /** An accepted operation whose string equals the string of a leaf with a short name takes the
      hash of the leaf's value as its child: the prefix can hold everything before it. */
  lemma OpOverLeaf(H: Hash, s: Simple, op: InnerOp, h: Digest)
    requires s.Leaf? && |s.name| < 30 && CheckSimpleOp(op).Ok?
    requires OpPreimage(op, h) == Preimage(H, s)
    ensures h == H(s.root)
  {
    LeafParts(H, s.name, s.root);
    assert Varint.Encode(|s.name|) == [|s.name|];
    assert |Preimage(H, s)| == |s.name| + 35;
    assert |op.suffix| == 0;
    assert OpPreimage(op, h) == op.prefix + h;
    var before := [0] + (Varint.Encode(|s.name|) + (s.name + [0x20]));
    assert Preimage(H, s) == before + H(s.root);
    SplitConcat(op.prefix, h, before, H(s.root));
  }

  // ------------------------------------------------------------------------------- soundness

  /** Every string a fold hashes is longer than a digest. */
  lemma HashIsOfLongString(H: Hash, prefix: Bytes, key: Bytes, value: Bytes, path: seq<InnerOp>, strings: set<Bytes>)
    returns (x: Bytes)
    requires SimpleRoot(H, prefix, key, value, path).Ok?
    requires HashedByProof(H, prefix, key, value, path) <= strings
    ensures x in strings && |x| > 32 && SimpleRoot(H, prefix, key, value, path) == Ok(H(x))
  {
    if path == [] {
      x := LeafPreimage(H, prefix, key, value);
    } else {
      var last := |path| - 1;
      var h := FoldSimple(H, H(LeafPreimage(H, prefix, key, value)), path[..last]).value;
      x := OpPreimage(path[last], h);
    }
  }

  /** The root a leaf holds is a digest, so no longer string shares its hash. */
  lemma LeafHoldsNoInnerHash(H: Hash, s: Simple, x: Bytes, strings: set<Bytes>)
    requires s.Leaf? && CollisionFree(H, strings) && Hashed(H, s) <= strings
    requires x in strings && |x| > 32
    ensures H(x) != H(s.root)
  {
    assert s.root in Hashed(H, s);
  }

  /** The last operation of an accepted proof leads from the root of a tree to that of a child. */
  lemma LastOp(H: Hash, s: Simple, prefix: Bytes, key: Bytes, value: Bytes, path: seq<InnerOp>, strings: set<Bytes>)
    returns (child: Simple)
    requires NamesBelow(s, 30) && CollisionFree(H, strings) && path != []
    requires SimpleRoot(H, prefix, key, value, path) == Ok(RootHash(H, s))
    requires Hashed(H, s) <= strings && HashedByProof(H, prefix, key, value, path) <= strings
    ensures s.Node? && (child == s.left || child == s.right)
    ensures SimpleRoot(H, prefix, key, value, path[..|path| - 1]) == Ok(RootHash(H, child))
  {
    var last := |path| - 1;
    var h := FoldSimple(H, H(LeafPreimage(H, prefix, key, value)), path[..last]).value;
    assert OpPreimage(path[last], h) in strings && Preimage(H, s) in strings;
    assert OpPreimage(path[last], h) == Preimage(H, s);
    hide CollisionFree;
    if s.Leaf? {
      OpOverLeaf(H, s, path[last], h);
      var x := HashIsOfLongString(H, prefix, key, value, path[..last], strings);
      LeafHoldsNoInnerHash(H, s, x, strings);
      child := s;
    } else {
      NodeStep(H, s, path[last], h);
      child := if h == RootHash(H, s.left) then s.left else s.right;
    }
  }

  /** Soundness: an accepted proof proves a mapping of the tree, for store names under 30 bytes
      and 32-byte values. */
  lemma {:induction false} MembershipSound(H: Hash, s: Simple, prefix: Bytes, key: Bytes, value: Bytes,
                                           path: seq<InnerOp>, strings: set<Bytes>)
    requires NamesBelow(s, 30) && CollisionFree(H, strings)
    requires SimpleRoot(H, prefix, key, value, path) == Ok(RootHash(H, s))
    requires Hashed(H, s) <= strings && HashedByProof(H, prefix, key, value, path) <= strings
    ensures Maps(s, key, value)
    decreases |path|
  {
    if path == [] {
      assert LeafPreimage(H, prefix, key, value) in strings && Preimage(H, s) in strings;
      LeafStep(H, s, prefix, key, value);
      assert value in strings && s.root in strings;
    } else {
      var child := LastOp(H, s, prefix, key, value, path, strings);
      MembershipSound(H, child, prefix, key, value, path[..|path| - 1], strings);
    }
  }

  /** The bound on names is sharp. Inner prefixes are limited only by length, so a digest that
      spells a 30-byte name with its length before it and the value's length after it folds with
      the leaf of that name, whatever key it is the hash of. */
  lemma NameBoundIsSharp(H: Hash, key: Bytes, value: Bytes, root: Digest)
    requires var d := H(LeafPreimage(H, [0], key, value)); d[0] == 30 && d[31] == 0x20
    ensures var name := H(LeafPreimage(H, [0], key, value))[1..31];
            && |name| == 30
            && SimpleRoot(H, [0], key, value, [InnerOp([0], H(root))]) == Ok(RootHash(H, Leaf(name, root)))
            && (key != name ==> !Maps(Leaf(name, root), key, value))
  {
    var d := H(LeafPreimage(H, [0], key, value));
    var name := d[1..31];
    var op := InnerOp([0], H(root));
    assert d == [30] + name + [0x20];
    LeafParts(H, name, root);
    assert OpPreimage(op, d) == [0] + (Varint.Encode(30) + (name + ([0x20] + H(root))));
    assert OpPreimage(op, d) == Preimage(H, Leaf(name, root));
    assert [op][..0] == [] && FoldSimple(H, d, []) == Ok(d);
    assert FoldSimple(H, d, [op]) == Ok(H(OpPreimage(op, d)));
  }

  const EXAMPLE_NAME: Bytes := seq(30, _ => 3)

  /** A hash function that tells the four strings of this example apart by their lengths. */
  function ExampleHash(x: Bytes): Digest {
    if |x| == 0 then seq(32, _ => 1)
    else if |x| == 32 then seq(32, _ => 2)
    else if |x| == 35 then [30] + EXAMPLE_NAME + [0x20]
    else Zeros(32)
  }

  /** Soundness fails at 30 bytes even without collisions: the tree of one store with this name, and
      an accepted proof that maps the empty name. */
  lemma SoundnessFailsAt30()
    ensures var s, path := Leaf(EXAMPLE_NAME, Zeros(32)), [InnerOp([0], ExampleHash(Zeros(32)))];
            && NamesBelow(s, 31) && !Maps(s, [], [])
            && SimpleRoot(ExampleHash, [0], [], [], path) == Ok(RootHash(ExampleHash, s))
            && CollisionFree(ExampleHash, Hashed(ExampleHash, s) + HashedByProof(ExampleHash, [0], [], [], path))
  {
    var s, path := Leaf(EXAMPLE_NAME, Zeros(32)), [InnerOp([0], ExampleHash(Zeros(32)))];
    var leaf := LeafPreimage(ExampleHash, [0], [], []);
    LeafParts(ExampleHash, [], []);
    LeafParts(ExampleHash, EXAMPLE_NAME, Zeros(32));
    assert |leaf| == 35 && |Preimage(ExampleHash, s)| == 65;
    var d := ExampleHash(leaf);
    assert d[1..31] == EXAMPLE_NAME;
    NameBoundIsSharp(ExampleHash, [], [], Zeros(32));
    ExampleStrings(s, path);
  }

  /** The strings hashed in the example, and that their hashes differ. */
  lemma ExampleStrings(s: Simple, path: seq<InnerOp>)
    requires s == Leaf(EXAMPLE_NAME, Zeros(32)) && path == [InnerOp([0], ExampleHash(Zeros(32)))]
    requires |LeafPreimage(ExampleHash, [0], [], [])| == 35 && |Preimage(ExampleHash, s)| == 65
    ensures CollisionFree(ExampleHash, Hashed(ExampleHash, s) + HashedByProof(ExampleHash, [0], [], [], path))
  {
    var leaf, d := LeafPreimage(ExampleHash, [0], [], []), ExampleHash(LeafPreimage(ExampleHash, [0], [], []));
    assert path[..0] == [] && FoldSimple(ExampleHash, d, []) == Ok(d);
    var outer := OpPreimage(path[0], d);
    LeafParts(ExampleHash, EXAMPLE_NAME, Zeros(32));
    assert outer == Preimage(ExampleHash, s);
    assert HashedByPath(ExampleHash, d, path) == {outer};
    assert ExampleHash([])[0] == 1 && ExampleHash(Zeros(32))[0] == 2 && d[0] == 30 && ExampleHash(outer)[0] == 0;
  }

  // ---------------------------------------------------------------------------- completeness

  /** The operations from the leaf that maps `name` to `root` up to the root of the tree. */
  function ProvePath(H: Hash, s: Simple, name: Bytes, root: Bytes): seq<InnerOp>
    requires Maps(s, name, root)
  {
    match s
    case Leaf(_, _) => []
    case Node(left, right) =>
      if Maps(left, name, root)
      then ProvePath(H, left, name, root) + [InnerOp([1], RootHash(H, right))]
      else ProvePath(H, right, name, root) + [InnerOp([1] + RootHash(H, left), [])]
  }

  /** Completeness: every mapping of the tree has an accepted proof, whatever the name. */
  lemma {:induction false} MembershipComplete(H: Hash, s: Simple, name: Bytes, root: Bytes)
    requires Maps(s, name, root)
    ensures SimpleRoot(H, [0], name, root, ProvePath(H, s, name, root)) == Ok(RootHash(H, s))
  {
    match s
    case Leaf(_, _) =>
    case Node(left, right) =>
      var path := ProvePath(H, s, name, root);
      var onLeft := Maps(left, name, root);
      var child := if onLeft then left else right;
      MembershipComplete(H, child, name, root);
      assert path[..|path| - 1] == ProvePath(H, child, name, root);
      var op := path[|path| - 1];
      assert OpPreimage(op, RootHash(H, child)) == Preimage(H, s) by {
        if !onLeft {
          assert OpPreimage(op, RootHash(H, child)) == op.prefix + RootHash(H, child);
        }
      }
  }
}
