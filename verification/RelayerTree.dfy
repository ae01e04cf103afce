/** go/relay/tree.go: the relayer's side of the header proof. */
module RelayerTree {
  import opened Bytes
  import opened ProtoWire
  import TendermintHeader

  /** A CometBFT header. The version and the last block id stand for their protobuf encodings,
      which other packages produce; the time is in nanoseconds since 1970. */
  datatype Header = Header(
    version: Bytes,
    chainID: Bytes,
    height: int64,
    time: uint64,
    lastBlockID: Bytes,
    lastCommitHash: Bytes,
    dataHash: Bytes,
    validatorsHash: Bytes,
    nextValidatorsHash: Bytes,
    consensusHash: Bytes,
    appHash: Bytes,
    lastResultsHash: Bytes,
    evidenceHash: Bytes,
    proposerAddress: Bytes)

  /** The 14 encoded fields. */
  function Fields(h: Header): (r: seq<Bytes>)
    ensures |r| == 14
  {
    [ h.version,
      BytesField(0x0a, h.chainID),
      VarintField(0x08, ToUint64(h.height)),
      EncodeTimestamp(h.time / TendermintHeader.NANOS_PER_SECOND, h.time % TendermintHeader.NANOS_PER_SECOND),
      h.lastBlockID,
      BytesField(0x0a, h.lastCommitHash),
      BytesField(0x0a, h.dataHash),
      BytesField(0x0a, h.validatorsHash),
      BytesField(0x0a, h.nextValidatorsHash),
      BytesField(0x0a, h.consensusHash),
      BytesField(0x0a, h.appHash),
      BytesField(0x0a, h.lastResultsHash),
      BytesField(0x0a, h.evidenceHash),
      BytesField(0x0a, h.proposerAddress) ]
  }

  // ---------------------------------------------------------------- the hash the chain defines

  ghost predicate PowerOfTwo(n: nat) {
    n == 1 || (n > 0 && n % 2 == 0 && PowerOfTwo(n / 2))
  }

  /** The largest power of two that is below `n`, searched from the power `k` on. */
  function SplitPoint(n: nat, k: nat): (r: nat)
    requires 0 < k < n
    ensures k <= r < n <= 2 * r
    ensures PowerOfTwo(k) ==> PowerOfTwo(r)
    decreases n - k
  {
    if 2 * k < n then SplitPoint(n, 2 * k) else k
  }

  /** The Merkle tree hash of section 2.1 of RFC 6962, on its own strings. */
  function TreeHash(H: Hash, leaves: seq<Bytes>): Digest {
    if |leaves| == 0 then H([])
    else if |leaves| == 1 then H([0x00] + leaves[0])
    else
      var k := SplitPoint(|leaves|, 1);
      H([0x01] + TreeHash(H, leaves[..k]) + TreeHash(H, leaves[k..]))
  }

  function BlockHash(H: Hash, h: Header): Digest {
    TreeHash(H, Fields(h))
  }

  // ------------------------------------------------------------------------- the relayer's proof

  function Leaves(H: Hash, h: Header): (r: seq<Digest>)
    ensures |r| == 14 && forall i :: 0 <= i < 14 ==> r[i] == TendermintHeader.LeafHash(H, Fields(h)[i])
  {
    var fields := Fields(h);
    seq(14, i requires 0 <= i < 14 => TendermintHeader.LeafHash(H, fields[i]))
  }

  /** headerToLeaves: each field is overwritten by its leaf hash. None stands for nil. */
  method HeaderToLeaves(H: Hash, header: Option<Header>) returns (r: Option<seq<Bytes>>)
    ensures r == if header.None? || header.value.validatorsHash == [] then None else Some(Leaves(H, header.value))
  {
    if header.None? || |header.value.validatorsHash| == 0 {
      return None;
    }
    var h := header.value;
    hide Fields;
    var encoded := Fields(h);
    ghost var leaves: seq<Bytes> := Leaves(H, h);
    var fields := new Bytes[14](i requires 0 <= i < 14 => encoded[i]);
    for i := 0 to 14
      invariant forall j :: 0 <= j < i ==> fields[j] == leaves[j]
      invariant forall j :: i <= j < 14 ==> fields[j] == encoded[j]
    {
      fields[i] := TendermintHeader.LeafHash(H, fields[i]);
    }
    assert fields[..] == leaves;
    return Some(fields[..]);
  }

  /** getSimpleTreeProof: the subtrees with generalized indexes 4, 6, 7, 11, 17 and 26. It panics
      when there are no leaves. */
  function GetSimpleTreeProof(H: Hash, h: Header): (r: Outcome<seq<Digest>>)
    ensures r.Ok? <==> h.validatorsHash != []
    ensures r.Ok? ==> |r.value| == 6
  {
    if h.validatorsHash == [] then Revert(Panic)
    else
      var leaves := Leaves(H, h);
      var inner := (l: Digest, r: Digest) => TendermintHeader.InnerHash(H, l, r);
      Ok([ inner(inner(leaves[4], leaves[5]), inner(leaves[6], leaves[7])),
           inner(leaves[12], leaves[13]),
           inner(leaves[0], leaves[1]),
           inner(leaves[8], leaves[9]),
           leaves[2],
           leaves[11] ])
  }

  lemma TreeHash2(H: Hash, s: seq<Bytes>)
    requires |s| == 2
    ensures TreeHash(H, s) == TendermintHeader.InnerHash(H, TendermintHeader.LeafHash(H, s[0]),
                                                         TendermintHeader.LeafHash(H, s[1]))
  {
    assert s[..1][0] == s[0] && s[1..][0] == s[1];
  }

  lemma TreeHash4(H: Hash, s: seq<Bytes>)
    requires |s| == 4
    ensures TreeHash(H, s) == TendermintHeader.InnerHash(H, TreeHash(H, s[..2]), TreeHash(H, s[2..]))
  {
    assert SplitPoint(4, 1) == 2;
  }

  lemma TreeHash14(H: Hash, s: seq<Bytes>)
    requires |s| == 14
    ensures TreeHash(H, s) ==
            TendermintHeader.InnerHash(H,
                                       TendermintHeader.InnerHash(H, TreeHash(H, s[..4]), TreeHash(H, s[4..8])),
                                       TendermintHeader.InnerHash(H, TreeHash(H, s[8..12]), TreeHash(H, s[12..])))
  {
    assert SplitPoint(14, 1) == 8 && SplitPoint(8, 1) == 4 && SplitPoint(6, 1) == 4;
    assert s[..8][..4] == s[..4] && s[..8][4..] == s[4..8];
    assert s[8..][..4] == s[8..12] && s[8..][4..] == s[12..];
  }

  /** The relayer's proof makes the contract compute the block hash. */
  lemma SimpleTreeProofCorrect(H: Hash, h: Header)
    requires h.validatorsHash != [] && |h.appHash| == 32
    ensures GetSimpleTreeProof(H, h).Ok?
    ensures TendermintHeader.MerkleRoot(H, h.time, h.appHash, GetSimpleTreeProof(H, h).value) == BlockHash(H, h)
  {
    var f := Fields(h);
    TreeHash14(H, f);
    TreeHash4(H, f[..4]);
    TreeHash4(H, f[4..8]);
    TreeHash4(H, f[8..12]);
    TreeHash2(H, f[..4][..2]);
    TreeHash2(H, f[..4][2..]);
    TreeHash2(H, f[4..8][..2]);
    TreeHash2(H, f[4..8][2..]);
    TreeHash2(H, f[8..12][..2]);
    TreeHash2(H, f[8..12][2..]);
    TreeHash2(H, f[12..]);
  }
}
