/** The loops of go/relay/TendermintZKLightClient.pb.go that read and write single fields. The
    generated code repeats the varint loop at every use; here it is written once. Indices are
    Go's signed 64-bit integers, wrap-around included. */
module WireCodec {
  import opened Bytes
  import opened ProtoWire
  import opened ProtoParse
  import opened ParseFailures
  import Varint

  /** The sum of two ints of Go. */
  function AddInt(a: int64, b: int64): int64 {
    ToInt64(a + b)
  }

  // ------------------------------------------------------------------------------------ size

  /** bits.Len64 */
  function BitLen(x: nat): nat {
    if x == 0 then 0 else 1 + BitLen(x / 2)
  }

  /** x | 1 */
  function OrOne(x: nat): nat {
    if x % 2 == 0 then x + 1 else x
  }

  /** sovTendermintZKLightClient */
  function Sov(x: uint64): nat {
    (BitLen(OrOne(x)) + 6) / 7
  }

  lemma BitLenBy7(x: nat)
    requires x >= 128
    ensures BitLen(x) == 7 + BitLen(x / 128)
  {
    var x1 := x / 2;
    var x2 := x1 / 2;
    var x3 := x2 / 2;
    var x4 := x3 / 2;
    var x5 := x4 / 2;
    var x6 := x5 / 2;
    assert BitLen(x) == 1 + BitLen(x1) && BitLen(x1) == 1 + BitLen(x2) && BitLen(x2) == 1 + BitLen(x3);
    assert BitLen(x3) == 1 + BitLen(x4) && BitLen(x4) == 1 + BitLen(x5) && BitLen(x5) == 1 + BitLen(x6);
    assert BitLen(x6) == 1 + BitLen(x6 / 2);
    assert x6 / 2 == x / 128;
  }

  lemma BitLenOrOne(x: nat)
    requires x > 0
    ensures BitLen(OrOne(x)) == BitLen(x)
  {
  }

  lemma {:induction false} BitLenSmall(x: nat, k: nat)
    requires x < Power2(k)
    ensures BitLen(x) <= k
  {
    if x > 0 {
      BitLenSmall(x / 2, k - 1);
    }
  }

  function Power2(k: nat): nat {
    if k == 0 then 1 else 2 * Power2(k - 1)
  }

  /** The size computed from the bit length is the length of the encoding. */
  lemma {:induction false} SovIsLength(x: uint64)
    ensures Sov(x) == |Varint.Encode(x)|
    decreases x
  {
    if x < 128 {
      assert OrOne(x) < Power2(7) by {
        assert Power2(7) == 128;
      }
      BitLenSmall(OrOne(x), 7);
    } else {
      SovIsLength(x / 128);
      BitLenOrOne(x);
      BitLenOrOne(x / 128);
      BitLenBy7(x);
    }
  }

  // ---------------------------------------------------------------------------------- writing

  /** Between the buffer contents `s` and `t`, `field` was written so that it ends before index
      `i`; it starts at `j`, and everything else is as it was. */
  predicate Wrote(s: Bytes, t: Bytes, i: nat, j: nat, field: Bytes) {
    && j + |field| == i <= |s| == |t|
    && t[..j] == s[..j]
    && t[j..] == field + s[i..]
  }

  /** Writing `f` and then `g` before it writes `g + f`. */
  lemma WroteBoth(s: Bytes, t: Bytes, u: Bytes, i: nat, j: nat, k: nat, f: Bytes, g: Bytes)
    requires Wrote(s, t, i, j, f) && Wrote(t, u, j, k, g)
    ensures Wrote(s, u, i, k, g + f)
  {
    assert u[..k] == t[..j][..k] == s[..k];
    assert u[k..] == g + (f + s[i..]) == g + f + s[i..];
  }

  lemma WroteNothing(s: Bytes, i: nat)
    requires i <= |s|
    ensures Wrote(s, s, i, i, [])
  {
    assert [] + s[i..] == s[i..];
  }

  /** encodeVarintTendermintZKLightClient: writes `v` so that it ends before `offset`. */
  method EncodeVarint(dAtA: array<byte>, offset: nat, v: uint64) returns (base: nat)
    requires |Varint.Encode(v)| <= offset <= dAtA.Length
    modifies dAtA
    ensures base + |Varint.Encode(v)| == offset
    ensures Wrote(old(dAtA[..]), dAtA[..], offset, base, Varint.Encode(v))
  {
    SovIsLength(v);
    var i := offset - Sov(v);
    base := i;
    var w := v;
    while w >= 128
      invariant base <= i && 0 <= w < TWO64
      invariant dAtA[..base] == old(dAtA[..base]) && dAtA[offset..] == old(dAtA[offset..])
      invariant i + |Varint.Encode(w)| == offset
      invariant dAtA[base..i] + Varint.Encode(w) == Varint.Encode(v)
      decreases w
    {
      ghost var before := dAtA[base..i];
      assert before + Varint.Encode(w) == before + [w % 128 + 128] + Varint.Encode(w / 128);
      dAtA[i] := w % 128 + 128;
      assert dAtA[base..i + 1] == before + [w % 128 + 128];
      w := w / 128;
      i := i + 1;
    }
    ghost var before := dAtA[base..i];
    dAtA[i] := w;
    assert dAtA[base..i + 1] == before + [w];
    assert dAtA[..][base..] == dAtA[base..offset] + dAtA[offset..];
  }

  /** `i -= len(b); copy(dAtA[i:], b)` */
  method CopyBefore(dAtA: array<byte>, i: nat, b: Bytes) returns (j: nat)
    requires |b| <= i <= dAtA.Length
    modifies dAtA
    ensures j + |b| == i
    ensures Wrote(old(dAtA[..]), dAtA[..], i, j, b)
  {
    j := i - |b|;
    for k := 0 to |b|
      invariant dAtA[..j] == old(dAtA[..j]) && dAtA[i..] == old(dAtA[i..])
      invariant dAtA[j..j + k] == b[..k]
    {
      ghost var before := dAtA[j..j + k];
      dAtA[j + k] := b[k];
      assert dAtA[j..j + k] == before;
      assert dAtA[j..j + (k + 1)] == before + [b[k]];
      assert b[..k + 1] == b[..k] + [b[k]];
    }
    assert b[..|b|] == b && j + |b| == i;
    assert dAtA[j..] == dAtA[j..i] + dAtA[i..];
  }

  /** `i--; dAtA[i] = tag` */
  method WriteTag(dAtA: array<byte>, i: nat, tag: byte) returns (j: nat)
    requires 0 < i <= dAtA.Length
    modifies dAtA
    ensures j + 1 == i
    ensures Wrote(old(dAtA[..]), dAtA[..], i, j, [tag])
  {
    j := i - 1;
    dAtA[j] := tag;
    assert dAtA[..][j..] == [tag] + dAtA[i..];
  }

  /** A byte field before index `i`: content, length, tag, from back to front. */
  method WriteText(dAtA: array<byte>, i: nat, tag: byte, b: Bytes) returns (j: nat)
    requires |b| < TWO64 && |LengthDelimited(tag, b)| <= i <= dAtA.Length
    modifies dAtA
    ensures j + |LengthDelimited(tag, b)| == i
    ensures Wrote(old(dAtA[..]), dAtA[..], i, j, LengthDelimited(tag, b))
  {
    hide Varint.Encode;
    var k := CopyBefore(dAtA, i, b);
    ghost var s1 := dAtA[..];
    var m := EncodeVarint(dAtA, k, |b|);
    ghost var s2 := dAtA[..];
    WroteBoth(old(dAtA[..]), s1, s2, i, k, m, b, Varint.Encode(|b|));
    j := WriteTag(dAtA, m, tag);
    WroteBoth(old(dAtA[..]), s2, dAtA[..], i, m, j, Varint.Encode(|b|) + b, [tag]);
    assert [tag] + (Varint.Encode(|b|) + b) == LengthDelimited(tag, b);
  }

  /** A byte field; an empty one is not written. */
  method WriteBytes(dAtA: array<byte>, i: nat, tag: byte, b: Bytes) returns (j: nat)
    requires |b| < TWO64 && |BytesField(tag, b)| <= i <= dAtA.Length
    modifies dAtA
    ensures j + |BytesField(tag, b)| == i
    ensures Wrote(old(dAtA[..]), dAtA[..], i, j, BytesField(tag, b))
  {
    j := i;
    if |b| > 0 {
      j := WriteText(dAtA, i, tag, b);
    } else {
      WroteNothing(dAtA[..], i);
    }
  }

  /** A repeated byte field, last element first. */
  method WriteRepeated(dAtA: array<byte>, i: nat, tag: byte, bs: seq<Bytes>) returns (j: nat)
    requires forall b :: b in bs ==> |b| < TWO64
    requires |RepeatedField(tag, bs)| <= i <= dAtA.Length
    modifies dAtA
    ensures j + |RepeatedField(tag, bs)| == i
    ensures Wrote(old(dAtA[..]), dAtA[..], i, j, RepeatedField(tag, bs))
  {
    j := i;
    var iNdEx := |bs|;
    WroteNothing(dAtA[..], i);
    while iNdEx > 0
      invariant 0 <= iNdEx <= |bs|
      invariant Wrote(old(dAtA[..]), dAtA[..], i, j, RepeatedField(tag, bs[iNdEx..]))
    {
      iNdEx := iNdEx - 1;
      RepeatedSplit(tag, bs, iNdEx);
      ghost var k, before := j, dAtA[..];
      j := WriteText(dAtA, j, tag, bs[iNdEx]);
      WroteBoth(old(dAtA[..]), before, dAtA[..], i, k, j, RepeatedField(tag, bs[iNdEx + 1..]),
                LengthDelimited(tag, bs[iNdEx]));
    }
    assert bs[0..] == bs;
  }

  /** The part of a repeated field from an element on starts with that element and fits. */
  lemma {:induction false} RepeatedSplit(tag: byte, bs: seq<Bytes>, k: nat)
    requires k < |bs|
    ensures RepeatedField(tag, bs[k..]) == LengthDelimited(tag, bs[k]) + RepeatedField(tag, bs[k + 1..])
    ensures |RepeatedField(tag, bs[k..])| <= |RepeatedField(tag, bs)|
  {
    assert bs[k..][1..] == bs[k + 1..];
    if k == 0 {
      assert bs[0..] == bs;
    } else {
      RepeatedSplit(tag, bs[1..], k - 1);
      assert bs[1..][k - 1..] == bs[k..];
    }
  }

  lemma {:induction false} RepeatedAppend(tag: byte, bs: seq<Bytes>, b: Bytes)
    ensures RepeatedField(tag, bs + [b]) == RepeatedField(tag, bs) + LengthDelimited(tag, b)
  {
    if bs != [] {
      RepeatedAppend(tag, bs[1..], b);
      assert (bs + [b])[1..] == bs[1..] + [b];
    }
  }

  /** A number field before index `i`; zero is not written. */
  method WriteNumber(dAtA: array<byte>, i: nat, tag: byte, v: uint64) returns (j: nat)
    requires |VarintField(tag, v)| <= i <= dAtA.Length
    modifies dAtA
    ensures j + |VarintField(tag, v)| == i
    ensures Wrote(old(dAtA[..]), dAtA[..], i, j, VarintField(tag, v))
  {
    hide Varint.Encode;
    j := i;
    if v != 0 {
      var m := EncodeVarint(dAtA, i, v);
      ghost var s1 := dAtA[..];
      j := WriteTag(dAtA, m, tag);
      WroteBoth(old(dAtA[..]), s1, dAtA[..], i, m, j, Varint.Encode(v), [tag]);
    } else {
      WroteNothing(dAtA[..], i);
    }
  }

  // ---------------------------------------------------------------------------------- reading

  /** Adding a shifted group to a uint64 (the groups do not overlap) drops the bits beyond 64. */
  lemma AddGroup(v: nat, group: nat)
    ensures (v % TWO64 + group) % TWO64 == (v + group) % TWO64
  {
  }

  lemma VarintOverflows(b: Bytes, i: nat)
    requires i + 10 <= |b| && forall k :: i <= k < i + 10 ==> b[k] >= 128
    ensures VarintFailure(b, i) == Some(IntOverflow)
  {
    if Varint.End(b, i).Some? {
      Varint.EndExact(b, i, Varint.End(b, i).value);
    }
  }

  lemma VarintBreaksOff(b: Bytes, i: nat)
    requires i <= |b| < i + 10 && forall k :: i <= k < |b| ==> b[k] >= 128
    ensures VarintFailure(b, i) == Some(UnexpectedEOF)
  {
    if Varint.End(b, i).Some? {
      Varint.EndExact(b, i, Varint.End(b, i).value);
    }
  }

  lemma VarintEnds(b: Bytes, i: nat, j: nat)
    requires i < j <= |b| && j - i <= 10 && b[j - 1] < 128 && forall k :: i <= k < j - 1 ==> b[k] >= 128
    ensures VarintFailure(b, i) == None && ReadVarint(b, i) == Some((Varint.Value(b, i, j) % TWO64, j))
  {
    Varint.EndExact(b, i, j);
    hide Varint.Value, Varint.End;
  }

  /** The varint loop. */
  method ReadVarintAt(dAtA: Bytes, start: nat) returns (v: uint64, iNdEx: nat, err: Option<CodecError>)
    requires start <= |dAtA|
    ensures err == VarintFailure(dAtA, start)
    ensures err.None? ==> ReadVarint(dAtA, start) == Some((v, iNdEx))
  {
    hide ReadVarint, VarintFailure, Varint.Value, Varint.Pow128;
    v, iNdEx := 0, start;
    var shift := 0;
    Varint.ValueOfNothing(dAtA, start);
    while true
      invariant start <= iNdEx <= |dAtA| && shift == 7 * (iNdEx - start) && iNdEx - start <= 10
      invariant forall k :: start <= k < iNdEx ==> dAtA[k] >= 128
      invariant v == Varint.Value(dAtA, start, iNdEx) % TWO64
      decreases |dAtA| - iNdEx
    {
      if shift >= 64 {
        VarintOverflows(dAtA, start);
        return v, iNdEx, Some(IntOverflow);
      }
      if iNdEx >= |dAtA| {
        VarintBreaksOff(dAtA, start);
        return v, iNdEx, Some(UnexpectedEOF);
      }
      var b := dAtA[iNdEx];
      Varint.ValueAppend(dAtA, start, iNdEx);
      AddGroup(Varint.Value(dAtA, start, iNdEx), b % 128 * Varint.Pow128(iNdEx - start));
      v := (v + b % 128 * Varint.Pow128(iNdEx - start)) % TWO64;
      iNdEx := iNdEx + 1;
      shift := shift + 7;
      if b < 128 {
        VarintEnds(dAtA, start, iNdEx);
        return v, iNdEx, None;
      }
    }
  }

  /** The switch over the wire type: the index after the field content that starts at `start`. */
  method SkipContent(dAtA: Bytes, start: nat, wireType: nat, depth: nat)
    returns (iNdEx: int64, newDepth: nat, err: Option<CodecError>)
    requires start <= |dAtA| < TWO63
    ensures err == SkipToFailure(dAtA, start, wireType, depth)
    ensures err.None? ==> var (j, d) := SkipTo(dAtA, start, wireType, depth).value;
                          newDepth == d && iNdEx == ToInt64(j) && j < TWO64
  {
    hide ReadVarint;
    iNdEx, newDepth, err := start, depth, None;
    if wireType == 0 {
      var _, k, e := ReadVarintAt(dAtA, start);
      if e.Some? {
        return 0, 0, e;
      }
      iNdEx := k;
    } else if wireType == 1 {
      iNdEx := AddInt(start, 8);
    } else if wireType == 2 {
      var v, k, e := ReadVarintAt(dAtA, start);
      if e.Some? {
        return 0, 0, e;
      }
      var length := ToInt64(v);
      if length < 0 {
        return 0, 0, Some(InvalidLength);
      }
      iNdEx := AddInt(k, length);
    } else if wireType == 3 {
      newDepth := depth + 1;
    } else if wireType == 4 {
      if depth == 0 {
        return 0, 0, Some(UnexpectedEndOfGroup);
      }
      newDepth := depth - 1;
    } else if wireType == 5 {
      iNdEx := AddInt(start, 4);
    } else {
      return 0, 0, Some(IllegalWireType);
    }
  }

  /** skipTendermintZKLightClient: fails exactly when there is no field to skip or the index after
      it is no int, with the error that SkipFailure names. A successful skip advances, possibly
      beyond the end. */
  method Skip(dAtA: Bytes) returns (n: int64, err: Option<CodecError>)
    requires |dAtA| < TWO63
    ensures err == SkipFailure(dAtA, 0, 0)
    ensures err.None? ==> SkipEnd(dAtA, 0, 0).Some? && n == SkipEnd(dAtA, 0, 0).value > 0
  {
    hide ReadVarint, SkipTo, VarintFailure, SkipToFailure;
    var l := |dAtA|;
    var iNdEx: int64 := 0;
    var depth := 0;
    while iNdEx < l
      invariant 0 <= iNdEx < TWO63 && 0 <= depth
      invariant SkipEnd(dAtA, 0, 0) == SkipEnd(dAtA, iNdEx, depth)
      invariant SkipFailure(dAtA, 0, 0) == SkipFailure(dAtA, iNdEx, depth)
      decreases l - iNdEx
    {
      ghost var at, d := iNdEx, depth;
      var wire, next, e := ReadVarintAt(dAtA, iNdEx);
      if e.Some? {
        return 0, e;
      }
      iNdEx, depth, e := SkipContent(dAtA, next, wire % 8, depth);
      if e.Some? {
        return 0, e;
      }
      ghost var j := SkipStep(dAtA, at, d).value.0;
      if iNdEx < 0 {
        return 0, Some(InvalidLength);
      }
      if depth == 0 {
        return iNdEx, None;
      }
    }
    return 0, Some(UnexpectedEOF);
  }
}
