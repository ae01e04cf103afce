/** contracts/TendermintHeader.sol: the block hash of a header from its timestamp, its app hash
    and six sibling hashes. */
module TendermintHeader {
  import opened Bytes
  import opened ProtoWire
  import Varint

  const NANOS_PER_SECOND: nat := 1_000_000_000

  function LeafPreimage(leaf: Bytes): Bytes { [0x00] + leaf }

  function InnerPreimage(left: Digest, right: Digest): Bytes { [0x01] + left + right }

  function LeafHash(H: Hash, leaf: Bytes): Digest { H(LeafPreimage(leaf)) }

  function InnerHash(H: Hash, left: Digest, right: Digest): Digest { H(InnerPreimage(left, right)) }

  /** A time in nanoseconds as an encoded protobuf timestamp. */
  function TimestampBytes(timestampNanos: uint64): Bytes {
    EncodeTimestamp(timestampNanos / NANOS_PER_SECOND, timestampNanos % NANOS_PER_SECOND)
  }

  /** cdcEncode: the value wrapped in a BytesValue, written through an advancing pointer. */
  method CdcEncode(bz: Digest) returns (bs: array<byte>)
    ensures bs[..] == [0x0a, 0x20] + bz == BytesField(0x0a, bz)
  {
    bs := new byte[34](_ => 0);
    var pointer := 0;
    bs[pointer] := 0x0a;
    pointer := pointer + 1;
    bs[pointer] := 0x20;
    pointer := pointer + 1;
    for i := 0 to 32
      invariant bs[..pointer + i] == [0x0a, 0x20] + bz[..i]
    {
      bs[pointer + i] := bz[i];
      assert bs[..pointer + i + 1] == bs[..pointer + i] + [bz[i]];
    }
    assert bz[..32] == bz;
    assert bs[..34] == bs[..];
    assert Varint.Encode(32) == [0x20];
  }

  /** The hash of the header whose subtrees with generalized indexes 4, 6, 7, 11, 17 and 26 are
      `proof`. */
  function MerkleRoot(H: Hash, timestampNanos: uint64, appHash: Digest, proof: seq<Digest>): Digest
    requires |proof| == 6
  {
    var timestampLeaf := LeafHash(H, TimestampBytes(timestampNanos));
    var appHashLeaf := LeafHash(H, BytesField(0x0a, appHash));
    InnerHash(H,
              InnerHash(H, InnerHash(H, proof[2], InnerHash(H, proof[4], timestampLeaf)), proof[0]),
              InnerHash(H, InnerHash(H, proof[3], InnerHash(H, appHashLeaf, proof[5])), proof[1]))
  }

  // ------------------------------------------------------------------------------- binding

  lemma InnerInjective(a: Digest, b: Digest, c: Digest, d: Digest)
    requires InnerPreimage(a, b) == InnerPreimage(c, d)
    ensures a == c && b == d
  {
    SplitConcat([0x01] + a, b, [0x01] + c, d);
    SplitConcat([0x01], a, [0x01], c);
  }

  lemma LeafInjective(a: Bytes, b: Bytes)
    requires LeafPreimage(a) == LeafPreimage(b)
    ensures a == b
  {
    SplitConcat([0x00], a, [0x00], b);
  }

  /** Equal inner hashes of strings without collision have equal children. */
  lemma InnerHashBinds(H: Hash, a: Digest, b: Digest, c: Digest, d: Digest, strings: set<Bytes>)
    requires CollisionFree(H, strings)
    requires InnerPreimage(a, b) in strings && InnerPreimage(c, d) in strings
    requires InnerHash(H, a, b) == InnerHash(H, c, d)
    ensures a == c && b == d
  {
    InnerInjective(a, b, c, d);
  }

  lemma TimestampBytesInjective(a: uint64, b: uint64)
    requires TimestampBytes(a) == TimestampBytes(b)
    ensures a == b
  {
    EncodeTimestampInjective(a / NANOS_PER_SECOND, a % NANOS_PER_SECOND,
                             b / NANOS_PER_SECOND, b % NANOS_PER_SECOND);
  }

  /** The strings merkleRoot hashes on the way from the timestamp to the root. */
  function TimestampBranch(H: Hash, timestampNanos: uint64, proof: seq<Digest>): set<Bytes>
    requires |proof| == 6
  {
    var leaf := LeafPreimage(TimestampBytes(timestampNanos));
    var a := InnerPreimage(proof[4], H(leaf));
    var b := InnerPreimage(proof[2], H(a));
    {leaf, a, b, InnerPreimage(H(b), proof[0])}
  }

  /** The strings merkleRoot hashes on the way from the app hash to the root. */
  function AppHashBranch(H: Hash, appHash: Digest, proof: seq<Digest>): set<Bytes>
    requires |proof| == 6
  {
    var leaf := LeafPreimage(BytesField(0x0a, appHash));
    var a := InnerPreimage(H(leaf), proof[5]);
    var b := InnerPreimage(proof[3], H(a));
    {leaf, a, b, InnerPreimage(H(b), proof[1])}
  }

  function TimestampRoot(H: Hash, timestampNanos: uint64, proof: seq<Digest>): Digest
    requires |proof| == 6
  {
    InnerHash(H, InnerHash(H, proof[2], InnerHash(H, proof[4], LeafHash(H, TimestampBytes(timestampNanos)))), proof[0])
  }

  function AppHashRoot(H: Hash, appHash: Digest, proof: seq<Digest>): Digest
    requires |proof| == 6
  {
    InnerHash(H, InnerHash(H, proof[3], InnerHash(H, LeafHash(H, BytesField(0x0a, appHash)), proof[5])), proof[1])
  }

  /** Every string merkleRoot hashes. */
  function HashedByRoot(H: Hash, timestampNanos: uint64, appHash: Digest, proof: seq<Digest>): set<Bytes>
    requires |proof| == 6
  {
    TimestampBranch(H, timestampNanos, proof) + AppHashBranch(H, appHash, proof) +
    {InnerPreimage(TimestampRoot(H, timestampNanos, proof), AppHashRoot(H, appHash, proof))}
  }

  lemma TimestampBinds(H: Hash, t: uint64, p: seq<Digest>, t': uint64, p': seq<Digest>, strings: set<Bytes>)
    requires |p| == |p'| == 6 && CollisionFree(H, strings)
    requires TimestampBranch(H, t, p) <= strings && TimestampBranch(H, t', p') <= strings
    requires TimestampRoot(H, t, p) == TimestampRoot(H, t', p')
    ensures t == t' && p[0] == p'[0] && p[2] == p'[2] && p[4] == p'[4]
  {
    var l, l' := LeafHash(H, TimestampBytes(t)), LeafHash(H, TimestampBytes(t'));
    var a, a' := InnerHash(H, p[4], l), InnerHash(H, p'[4], l');
    InnerHashBinds(H, InnerHash(H, p[2], a), p[0], InnerHash(H, p'[2], a'), p'[0], strings);
    InnerHashBinds(H, p[2], a, p'[2], a', strings);
    InnerHashBinds(H, p[4], l, p'[4], l', strings);
    assert LeafPreimage(TimestampBytes(t)) in strings && LeafPreimage(TimestampBytes(t')) in strings;
    LeafInjective(TimestampBytes(t), TimestampBytes(t'));
    TimestampBytesInjective(t, t');
  }

  lemma AppHashBinds(H: Hash, h: Digest, p: seq<Digest>, h': Digest, p': seq<Digest>, strings: set<Bytes>)
    requires |p| == |p'| == 6 && CollisionFree(H, strings)
    requires AppHashBranch(H, h, p) <= strings && AppHashBranch(H, h', p') <= strings
    requires AppHashRoot(H, h, p) == AppHashRoot(H, h', p')
    ensures h == h' && p[1] == p'[1] && p[3] == p'[3] && p[5] == p'[5]
  {
    var f, f' := BytesField(0x0a, h), BytesField(0x0a, h');
    var l, l' := LeafHash(H, f), LeafHash(H, f');
    var a, a' := InnerHash(H, l, p[5]), InnerHash(H, l', p'[5]);
    InnerHashBinds(H, InnerHash(H, p[3], a), p[1], InnerHash(H, p'[3], a'), p'[1], strings);
    InnerHashBinds(H, p[3], a, p'[3], a', strings);
    InnerHashBinds(H, l, p[5], l', p'[5], strings);
    assert LeafPreimage(f) in strings && LeafPreimage(f') in strings;
    LeafInjective(f, f');
    var tag := [0x0a] + Varint.Encode(32);
    SplitConcat(tag, h, tag, h');
  }

  /** Header binding: the same block hash from two inputs means the same timestamp, app hash and
      sibling hashes. */
  lemma HeaderBinding(H: Hash, t: uint64, h: Digest, p: seq<Digest>, t': uint64, h': Digest, p': seq<Digest>,
                      strings: set<Bytes>)
    requires |p| == |p'| == 6
    requires MerkleRoot(H, t, h, p) == MerkleRoot(H, t', h', p')
    requires CollisionFree(H, strings)
    requires HashedByRoot(H, t, h, p) <= strings && HashedByRoot(H, t', h', p') <= strings
    ensures t == t' && h == h' && p == p'
  {
    RootOfBranches(H, t, h, p, strings);
    RootOfBranches(H, t', h', p', strings);
    hide MerkleRoot, HashedByRoot, TimestampRoot, AppHashRoot, TimestampBranch, AppHashBranch, CollisionFree;
    hide InnerHash, InnerPreimage;
    InnerHashBinds(H, TimestampRoot(H, t, p), AppHashRoot(H, h, p),
                   TimestampRoot(H, t', p'), AppHashRoot(H, h', p'), strings);
    TimestampBinds(H, t, p, t', p', strings);
    AppHashBinds(H, h, p, h', p', strings);
    SixSiblings(p, p');
  }

  lemma SixSiblings(p: seq<Digest>, q: seq<Digest>)
    requires |p| == |q| == 6
    requires p[0] == q[0] && p[1] == q[1] && p[2] == q[2] && p[3] == q[3] && p[4] == q[4] && p[5] == q[5]
    ensures p == q
  {
  }

  /** The root joins the two branches, and its strings are theirs and one more. */
  lemma RootOfBranches(H: Hash, t: uint64, h: Digest, p: seq<Digest>, strings: set<Bytes>)
    requires |p| == 6 && HashedByRoot(H, t, h, p) <= strings
    ensures MerkleRoot(H, t, h, p) == InnerHash(H, TimestampRoot(H, t, p), AppHashRoot(H, h, p))
    ensures TimestampBranch(H, t, p) <= strings && AppHashBranch(H, h, p) <= strings
    ensures InnerPreimage(TimestampRoot(H, t, p), AppHashRoot(H, h, p)) in strings
  {
    hide InnerHash, LeafHash, TimestampBytes, BytesField;
  }
}
