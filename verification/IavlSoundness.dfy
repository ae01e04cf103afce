/** What an accepted IAVL proof says about the tree whose root it leads to, when SHA-256 has no
    collision among the strings that the tree and the verifier hash. */
module IavlSoundness {
  import opened Bytes
  import opened TreeVerifier
  import opened IavlTree
  import Varint

  // ------------------------------------------------------------------- the strings hashed

  ghost function HashedByPath(H: Hash, h: Digest, path: seq<InnerOp>): set<Bytes>
    decreases |path|
  {
    if path == [] then {}
    else
      var last := |path| - 1;
      match FoldIAVL(H, h, path[..last])
      case Revert(_) => {}
      case Ok(child) => HashedByPath(H, h, path[..last]) + {OpPreimage(path[last], child)}
  }

  /** The strings the verifier hashes for one existence proof. */
  ghost function HashedByProof(H: Hash, prefix: Bytes, key: Bytes, value: Bytes, path: seq<InnerOp>): set<Bytes> {
    var leaf := LeafPreimage(H, prefix, key, value);
    {leaf, value} + HashedByPath(H, H(leaf), path)
  }

  // ---------------------------------------------------------------------- one node at a time

  lemma PreimageHead(H: Hash, t: Iavl)
    requires WellFormed(t)
    ensures t.header != [] && Preimage(H, t) != [] && Preimage(H, t)[0] == t.header[0]
    ensures t.Leaf? <==> t.header[0] == 0
  {
    if t.header[0] == 0 {
      FirstVarintZero(t.header);
    }
  }

  /** A leaf string equal to a node's string makes the node that leaf. */
  lemma LeafStep(H: Hash, t: Iavl, prefix: Bytes, key: Bytes, value: Bytes)
    requires WellFormed(t)
    requires prefix != [] && prefix[0] == 0 && ValidateIAVLOpsSpec(prefix, 0).Ok?
    requires LeafPreimage(H, prefix, key, value) == Preimage(H, t)
    ensures t.Leaf? && prefix == t.header && key == t.key && H(value) == H(t.value)
  {
    hide ValidateIAVLOpsSpec, WellFormed, Varint.Encode;
    PreimageHead(H, t);
    var mine := PrepareLeafData(key) + ([0x20] + H(value));
    assert LeafPreimage(H, prefix, key, value) == prefix + mine;
    assert (prefix + mine)[0] == 0;
    var its := PrepareLeafData(t.key) + ([0x20] + H(t.value));
    assert Preimage(H, t) == t.header + its;
    LeafHeader(t, prefix, mine, its);
    assert mine == Varint.Encode(|key|) + (key + ([0x20] + H(value)));
    assert its == Varint.Encode(|t.key|) + (t.key + ([0x20] + H(t.value)));
    Varint.EncodeInjective(|key|, |t.key|, key + ([0x20] + H(value)), t.key + ([0x20] + H(t.value)));
    SplitConcat(key, [0x20] + H(value), t.key, [0x20] + H(t.value));
    SplitConcat([0x20], H(value), [0x20], H(t.value));
  }

  /** An accepted leaf prefix in front of a leaf's string is that leaf's header. */
  lemma LeafHeader(t: Iavl, prefix: Bytes, mine: Bytes, its: Bytes)
    requires WellFormed(t) && ValidateIAVLOpsSpec(prefix, 0).Ok?
    requires prefix + mine == t.header + its
    ensures prefix == t.header && mine == its
  {
    HeaderUnique(prefix, t.header, mine, its);
    SplitConcat(prefix, mine, t.header, its);
  }

  /** The two ways to lay one child hash over the two children of a node. */
  lemma BodySplit(tail: Bytes, h: Digest, suffix: Bytes, l: Digest, r: Digest)
    requires |tail| == 1 || |tail| == 34
    requires |suffix| % 33 == 0
    requires tail + h + suffix == [0x20] + l + [0x20] + r
    ensures if |tail| == 1 then tail == [0x20] && h == l && suffix == [0x20] + r
            else tail == [0x20] + l + [0x20] && h == r && suffix == []
  {
    if |tail| == 1 {
      assert tail + h + suffix == tail + (h + suffix);
      assert [0x20] + l + [0x20] + r == [0x20] + (l + ([0x20] + r));
      SplitConcat(tail, h + suffix, [0x20], l + ([0x20] + r));
      SplitConcat(h, suffix, l, [0x20] + r);
    } else {
      assert |suffix| == 0;
      assert tail + h + suffix == tail + h;
      SplitConcat(tail, h, [0x20] + l + [0x20], r);
    }
  }

  /** `b` starts with the three varints `c` consists of; what follows them is the rest. */
  lemma HeaderThenTail(b: Bytes, r: Bytes, c: Bytes, s: Bytes) returns (tail: Bytes)
    requires b + r == c + s
    requires VarintsEnd(b, 0, 3).Some? && VarintsEnd(c, 0, 3) == Some(|c|)
    ensures VarintsEnd(b, 0, 3) == Some(|c|)
    ensures b == c + tail && tail + r == s
  {
    HeaderUnique(b, c, r, s);
    tail := b[|c|..];
    assert c[..|c|] == c && b == b[..|c|] + tail;
    assert c + s == c + (tail + r);
    SplitConcat(c, s, c, tail + r);
  }

  lemma OpIsInner(H: Hash, t: Iavl, op: InnerOp, i: nat, h: Digest)
    requires WellFormed(t)
    requires CheckIAVLOp(op, i).Ok?
    requires OpPreimage(op, h) == Preimage(H, t)
    ensures t.Node?
  {
    if op.prefix[0] == 0 {
      FirstVarintZero(op.prefix);
    }
    PreimageHead(H, t);
    assert OpPreimage(op, h)[0] == op.prefix[0];
  }

  /** The three varints an accepted operation starts with are the node's header. */
  lemma OpHeader(H: Hash, t: Iavl, op: InnerOp, i: nat, h: Digest) returns (tail: Bytes)
    requires WellFormed(t)
    requires CheckIAVLOp(op, i).Ok?
    requires OpPreimage(op, h) == Preimage(H, t)
    ensures t.Node? && op.prefix == t.header + tail && (|tail| == 1 || |tail| == 34)
    ensures tail + h + op.suffix == [0x20] + RootHash(H, t.left) + [0x20] + RootHash(H, t.right)
  {
    hide VarintsEnd;
    OpIsInner(H, t, op, i, h);
    var body := [0x20] + RootHash(H, t.left) + [0x20] + RootHash(H, t.right);
    assert OpPreimage(op, h) == op.prefix + (h + op.suffix) && Preimage(H, t) == t.header + body;
    tail := HeaderThenTail(op.prefix, h + op.suffix, t.header, body);
    assert tail + h + op.suffix == tail + (h + op.suffix);
  }

  /** An accepted operation whose string equals a node's string is one of the node's two honest
      operations, applied to the hash of that child. */
  lemma OpStep(H: Hash, t: Iavl, op: InnerOp, i: nat, h: Digest) returns (side: Side)
    requires WellFormed(t)
    requires CheckIAVLOp(op, i).Ok?
    requires OpPreimage(op, h) == Preimage(H, t)
    ensures t.Node? && op == Op(H, t, side) && h == RootHash(H, Child(t, side))
  {
    hide WellFormed, CheckIAVLOp;
    var tail := OpHeader(H, t, op, i, h);
    BodySplit(tail, h, op.suffix, RootHash(H, t.left), RootHash(H, t.right));
    side := if |tail| == 1 then L else R;
    assert t.header + ([0x20] + RootHash(H, t.left) + [0x20])
        == t.header + [0x20] + RootHash(H, t.left) + [0x20];
  }

  // ------------------------------------------------------------------------------- existence

  /** An accepted proof is, byte for byte, the honest proof of a leaf of the tree. */
  lemma {:induction false} ProofIsHonest(H: Hash, t: Iavl, prefix: Bytes, key: Bytes, value: Bytes,
                                         path: seq<InnerOp>, strings: set<Bytes>)
    returns (p: seq<Side>)
    requires WellFormed(t)
    requires IAVLRoot(H, prefix, key, value, path) == Ok(RootHash(H, t))
    requires CollisionFree(H, strings)
    requires Hashed(H, t) <= strings && HashedByProof(H, prefix, key, value, path) <= strings
    ensures IsPosition(t, p) && path == Path(H, t, p)
    ensures LeafAt(t, p) == Leaf(prefix, key, value)
    decreases |path|
  {
    if path == [] {
      HonestLeaf(H, t, prefix, key, value, strings);
      p := [];
    } else {
      var last := |path| - 1;
      var side := HonestLastOp(H, t, prefix, key, value, path, strings);
      HashedSubsets(H, t, side, prefix, key, value, path);
      var q := ProofIsHonest(H, Child(t, side), prefix, key, value, path[..last], strings);
      p := ExtendPosition(H, t, side, q, path);
    }
  }

  /** A position of a child becomes one of the parent. */
  lemma ExtendPosition(H: Hash, t: Iavl, side: Side, q: seq<Side>, path: seq<InnerOp>) returns (p: seq<Side>)
    requires t.Node? && IsPosition(Child(t, side), q)
    requires path != [] && path[..|path| - 1] == Path(H, Child(t, side), q) && path[|path| - 1] == Op(H, t, side)
    ensures IsPosition(t, p) && path == Path(H, t, p)
    ensures LeafAt(t, p) == LeafAt(Child(t, side), q)
  {
    p := [side] + q;
    assert p[1..] == q;
    assert path == path[..|path| - 1] + [path[|path| - 1]];
  }

  lemma HonestLeaf(H: Hash, t: Iavl, prefix: Bytes, key: Bytes, value: Bytes, strings: set<Bytes>)
    requires WellFormed(t) && CollisionFree(H, strings)
    requires IAVLRoot(H, prefix, key, value, []) == Ok(RootHash(H, t))
    requires Hashed(H, t) <= strings && LeafPreimage(H, prefix, key, value) in strings && value in strings
    ensures t == Leaf(prefix, key, value)
  {
    assert Preimage(H, t) in strings;
    LeafStep(H, t, prefix, key, value);
    assert t.value in strings;
  }

  lemma HonestLastOp(H: Hash, t: Iavl, prefix: Bytes, key: Bytes, value: Bytes, path: seq<InnerOp>, strings: set<Bytes>)
    returns (side: Side)
    requires WellFormed(t) && CollisionFree(H, strings) && path != []
    requires IAVLRoot(H, prefix, key, value, path) == Ok(RootHash(H, t))
    requires Hashed(H, t) <= strings && HashedByProof(H, prefix, key, value, path) <= strings
    ensures t.Node? && path[|path| - 1] == Op(H, t, side)
    ensures IAVLRoot(H, prefix, key, value, path[..|path| - 1]) == Ok(RootHash(H, Child(t, side)))
  {
    var last := |path| - 1;
    var h := FoldIAVL(H, H(LeafPreimage(H, prefix, key, value)), path[..last]).value;
    assert OpPreimage(path[last], h) in strings && Preimage(H, t) in strings;
    side := OpStep(H, t, path[last], last, h);
  }

  lemma HashedSubsets(H: Hash, t: Iavl, side: Side, prefix: Bytes, key: Bytes, value: Bytes, path: seq<InnerOp>)
    requires t.Node? && path != []
    requires IAVLRoot(H, prefix, key, value, path).Ok?
    ensures Hashed(H, Child(t, side)) <= Hashed(H, t)
    ensures HashedByProof(H, prefix, key, value, path[..|path| - 1]) <= HashedByProof(H, prefix, key, value, path)
  {
  }

  /** Soundness: an accepted existence proof proves a mapping of the tree. */
  lemma MembershipSound(H: Hash, t: Iavl, prefix: Bytes, key: Bytes, value: Bytes, path: seq<InnerOp>,
                        strings: set<Bytes>)
    requires WellFormed(t)
    requires IAVLRoot(H, prefix, key, value, path) == Ok(RootHash(H, t))
    requires CollisionFree(H, strings)
    requires Hashed(H, t) <= strings && HashedByProof(H, prefix, key, value, path) <= strings
    ensures Maps(t, key, value)
  {
    var p := ProofIsHonest(H, t, prefix, key, value, path, strings);
    assert KeyAt(t, Rank(t, p)) == key;
  }
}
