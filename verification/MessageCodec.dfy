/** Marshal, Size and Unmarshal of UpdateStateMessage and Timestamp
    (go/relay/TendermintZKLightClient.pb.go). */
module MessageCodec {
  import opened Bytes
  import opened ProtoWire
  import opened ProtoParse
  import opened ParseFailures
  import opened WireCodec
  import opened Messages
  import opened UnknownFields

  // -------------------------------------------------------------------------- specification

  const UPDATE_KINDS: map<int, Kind> :=
    map[1 := Number, 2 := Number, 3 := Text, 4 := Number, 5 := Text, 6 := Text, 7 := Text, 8 := Text]

  /** What one record does to the message: numbers and byte strings are replaced, repeated fields
      grow, unknown fields are dropped. */
  function ApplyUpdateRecord(m: UpdateStateValue, r: Record): UpdateStateValue {
    match r
    case NumberRecord(f, v) =>
      if f == 1 then m.(trustedHeight := v)
      else if f == 2 then m.(untrustedHeight := v)
      else if f == 4 then m.(timestamp := v)
      else m
    case TextRecord(f, t) =>
      if f == 3 then m.(untrustedBlockHash := t)
      else if f == 5 then m.(appHash := t)
      else if f == 6 then m.(simpleTreeProof := m.simpleTreeProof + [t])
      else if f == 7 then m.(input := m.input + [t])
      else if f == 8 then m.(zkProof := t)
      else m
    case UnknownRecord => m
  }

  function ParseUpdate(m: UpdateStateValue, b: Bytes, i: nat): Option<UpdateStateValue>
    requires i <= |b|
  {
    Parse(UPDATE_KINDS, ApplyUpdateRecord, m, b, i)
  }

  const TIMESTAMP_KINDS: map<int, Kind> := map[1 := Number, 2 := Number]

  function ApplyTimestampRecord(m: TimestampValue, r: Record): TimestampValue {
    match r
    case NumberRecord(f, v) =>
      if f == 1 then m.(seconds := ToInt64(v))
      else if f == 2 then m.(nanos := ToInt32(v))
      else m
    case _ => m
  }

  function ParseTimestamp(m: TimestampValue, b: Bytes, i: nat): Option<TimestampValue>
    requires i <= |b|
  {
    Parse(TIMESTAMP_KINDS, ApplyTimestampRecord, m, b, i)
  }

  // ------------------------------------------------------------------------- UpdateStateMessage

  /** Go's slices have int lengths, and a message must be small enough to be marshalled. */
  predicate Fits(m: UpdateStateValue) {
    |EncodeUpdateState(m)| < TWO63
  }

  lemma {:induction false} RepeatedBounds(tag: byte, bs: seq<Bytes>)
    ensures forall b :: b in bs ==> |b| <= |RepeatedField(tag, bs)|
  {
    if bs != [] {
      RepeatedBounds(tag, bs[1..]);
    }
  }

  lemma FieldsFit(m: UpdateStateValue)
    requires Fits(m)
    ensures |m.untrustedBlockHash| < TWO63 && |m.appHash| < TWO63 && |m.zkProof| < TWO63
    ensures forall b :: b in m.simpleTreeProof || b in m.input ==> |b| < TWO63
  {
    RepeatedBounds(0x32, m.simpleTreeProof);
    RepeatedBounds(0x3a, m.input);
  }

  class UpdateStateMessage {
    var TrustedHeight: uint64
    var UntrustedHeight: uint64
    var UntrustedBlockHash: Bytes
    var Timestamp: uint64
    var AppHash: Bytes
    var SimpleTreeProof: seq<Bytes>
    var Input: seq<Bytes>
    var ZkProof: Bytes

    constructor (m: UpdateStateValue)
      ensures Value() == m
    {
      TrustedHeight, UntrustedHeight, UntrustedBlockHash := m.trustedHeight, m.untrustedHeight, m.untrustedBlockHash;
      Timestamp, AppHash := m.timestamp, m.appHash;
      SimpleTreeProof, Input, ZkProof := m.simpleTreeProof, m.input, m.zkProof;
    }

    function Value(): UpdateStateValue
      reads this
    {
      UpdateStateValue(TrustedHeight, UntrustedHeight, UntrustedBlockHash, Timestamp, AppHash,
                       SimpleTreeProof, Input, ZkProof)
    }

    /** The size is the length of the encoding. */
    method Size() returns (n: nat)
      requires Fits(Value())
      ensures n == |EncodeUpdateState(Value())|
    {
      FieldsFit(Value());
      hide VarintField, BytesField, RepeatedField, Sov, NumberSize, BytesSize;
      n := NumberSize(0x08, TrustedHeight) + NumberSize(0x10, UntrustedHeight);
      n := n + BytesSize(0x1a, UntrustedBlockHash);
      n := n + NumberSize(0x20, Timestamp) + BytesSize(0x2a, AppHash);
      var proofSize := RepeatedSize(0x32, SimpleTreeProof);
      var inputSize := RepeatedSize(0x3a, Input);
      n := n + proofSize + inputSize + BytesSize(0x42, ZkProof);
    }

    /** Fills the end of the buffer with the encoding, field by field from the last to the first. */
    method MarshalToSizedBuffer(dAtA: array<byte>) returns (n: nat)
      requires Fits(Value()) && |EncodeUpdateState(Value())| <= dAtA.Length
      modifies dAtA
      ensures n == |EncodeUpdateState(Value())|
      ensures Wrote(old(dAtA[..]), dAtA[..], dAtA.Length, dAtA.Length - n, EncodeUpdateState(Value()))
    {
      FieldsFit(Value());
      hide VarintField, BytesField, RepeatedField, Wrote, LastFields;
      ghost var start, l, f5 := dAtA[..], dAtA.Length, LastFields(Value());
      var i := MarshalLastFields(dAtA);
      ghost var k, s := i, dAtA[..];
      i := WriteNumber(dAtA, i, 0x20, Timestamp);
      WroteBoth(start, s, dAtA[..], l, k, i, f5, VarintField(0x20, Timestamp));
      ghost var f4 := VarintField(0x20, Timestamp) + f5;
      k, s := i, dAtA[..];
      i := WriteBytes(dAtA, i, 0x1a, UntrustedBlockHash);
      WroteBoth(start, s, dAtA[..], l, k, i, f4, BytesField(0x1a, UntrustedBlockHash));
      ghost var f3 := BytesField(0x1a, UntrustedBlockHash) + f4;
      k, s := i, dAtA[..];
      i := WriteNumber(dAtA, i, 0x10, UntrustedHeight);
      WroteBoth(start, s, dAtA[..], l, k, i, f3, VarintField(0x10, UntrustedHeight));
      ghost var f2 := VarintField(0x10, UntrustedHeight) + f3;
      k, s := i, dAtA[..];
      i := WriteNumber(dAtA, i, 0x08, TrustedHeight);
      WroteBoth(start, s, dAtA[..], l, k, i, f2, VarintField(0x08, TrustedHeight));
      n := dAtA.Length - i;
    }

    /** The first half of MarshalToSizedBuffer: fields 8, 7, 6 and 5. */
    method MarshalLastFields(dAtA: array<byte>) returns (i: nat)
      requires Fits(Value()) && |LastFields(Value())| <= dAtA.Length
      modifies dAtA
      ensures i + |LastFields(Value())| == dAtA.Length
      ensures Wrote(old(dAtA[..]), dAtA[..], dAtA.Length, i, LastFields(Value()))
    {
      FieldsFit(Value());
      hide VarintField, BytesField, RepeatedField, Wrote, EncodeUpdateState;
      ghost var start, l := dAtA[..], dAtA.Length;
      i := WriteBytes(dAtA, dAtA.Length, 0x42, ZkProof);
      ghost var k, s, f8 := i, dAtA[..], BytesField(0x42, ZkProof);
      i := WriteRepeated(dAtA, i, 0x3a, Input);
      WroteBoth(start, s, dAtA[..], l, k, i, f8, RepeatedField(0x3a, Input));
      ghost var f7 := RepeatedField(0x3a, Input) + f8;
      k, s := i, dAtA[..];
      i := WriteRepeated(dAtA, i, 0x32, SimpleTreeProof);
      WroteBoth(start, s, dAtA[..], l, k, i, f7, RepeatedField(0x32, SimpleTreeProof));
      ghost var f6 := RepeatedField(0x32, SimpleTreeProof) + f7;
      k, s := i, dAtA[..];
      i := WriteBytes(dAtA, i, 0x2a, AppHash);
      WroteBoth(start, s, dAtA[..], l, k, i, f6, BytesField(0x2a, AppHash));
    }

    /** A buffer of exactly Size() bytes is filled back to its start. */
    method Marshal() returns (dAtA: array<byte>)
      requires Fits(Value())
      ensures fresh(dAtA) && dAtA[..] == EncodeUpdateState(Value())
    {
      hide EncodeUpdateState;
      var size := Size();
      dAtA := new byte[size](_ => 0);
      var n := MarshalToSizedBuffer(dAtA);
      assert dAtA[..][0..] == EncodeUpdateState(Value());
    }

    /** Parsing succeeds exactly when the bytes are records throughout, and leaves the message the
        records make of it; otherwise the error is that of the first bad record. */
    method Unmarshal(dAtA: Bytes) returns (err: Option<CodecError>)
      requires |dAtA| < TWO63
      modifies this
      ensures err == ParseFailure(UPDATE_KINDS, dAtA, 0)
      ensures err.None? <==> ParseUpdate(old(Value()), dAtA, 0).Some?
      ensures err.None? ==> ParseUpdate(old(Value()), dAtA, 0) == Some(Value())
    {
      ParseFailureExact(UPDATE_KINDS, ApplyUpdateRecord, Value(), dAtA, 0);
      var l := |dAtA|;
      var iNdEx: int64 := 0;
      while iNdEx < l
        invariant 0 <= iNdEx <= l
        invariant ParseUpdate(old(Value()), dAtA, 0) == ParseUpdate(Value(), dAtA, iNdEx)
        invariant ParseFailure(UPDATE_KINDS, dAtA, 0) == ParseFailure(UPDATE_KINDS, dAtA, iNdEx)
        decreases l - iNdEx
      {
        ghost var before := Value();
        var record, next, e := ReadRecordAt(UPDATE_KINDS, dAtA, iNdEx);
        if e.Some? {
          return e;
        }
        Assign(record);
        iNdEx := next;
      }
      return None;
    }

    /** The assignments of the switch over the field number. */
    method Assign(record: Record)
      modifies this
      ensures Value() == ApplyUpdateRecord(old(Value()), record)
    {
      match record
      case NumberRecord(f, v) =>
        if f == 1 {
          TrustedHeight := v;
        } else if f == 2 {
          UntrustedHeight := v;
        } else if f == 4 {
          Timestamp := v;
        }
      case TextRecord(f, t) =>
        if f == 3 {
          UntrustedBlockHash := t;
        } else if f == 5 {
          AppHash := t;
        } else if f == 6 {
          SimpleTreeProof := SimpleTreeProof + [t];
        } else if f == 7 {
          Input := Input + [t];
        } else if f == 8 {
          ZkProof := t;
        }
      case UnknownRecord =>
    }
  }

  function NumberSize(tag: byte, v: uint64): (n: nat)
    ensures n == |VarintField(tag, v)|
  {
    SovIsLength(v);
    if v != 0 then 1 + Sov(v) else 0
  }

  function BytesSize(tag: byte, b: Bytes): (n: nat)
    requires |b| < TWO64
    ensures n == |BytesField(tag, b)|
  {
    SovIsLength(|b|);
    if |b| > 0 then 1 + |b| + Sov(|b|) else 0
  }

  method RepeatedSize(tag: byte, bs: seq<Bytes>) returns (n: nat)
    requires forall b :: b in bs ==> |b| < TWO64
    ensures n == |RepeatedField(tag, bs)|
  {
    n := 0;
    for k := 0 to |bs|
      invariant n == |RepeatedField(tag, bs[..k])|
    {
      SovIsLength(|bs[k]|);
      assert bs[..k + 1] == bs[..k] + [bs[k]];
      RepeatedAppend(tag, bs[..k], bs[k]);
      n := n + 1 + |bs[k]| + Sov(|bs[k]|);
    }
    assert bs[..|bs|] == bs;
  }

  /** One pass of the loop of Unmarshal: the tag, then the field it announces. The index after a
      byte field is computed with wrap-around and checked twice. */
  method ReadRecordAt(kinds: map<int, Kind>, dAtA: Bytes, preIndex: nat)
    returns (record: Record, iNdEx: int64, err: Option<CodecError>)
    requires preIndex < |dAtA| < TWO63
    ensures err == RecordFailure(kinds, dAtA, preIndex)
    ensures err.None? ==> ReadRecord(kinds, dAtA, preIndex) == Some((record, iNdEx))
  {
    hide ReadVarint, SkipEnd;
    record, iNdEx, err := UnknownRecord, preIndex, None;
    var wire, j, e := ReadVarintAt(dAtA, preIndex);
    if e.Some? {
      return record, 0, e;
    }
    var fieldNum, wireType := FieldNumber(wire), wire % 8;
    if wireType == 4 {
      return record, 0, Some(EndGroupForNonGroup);
    }
    if fieldNum <= 0 {
      return record, 0, Some(IllegalTag);
    }
    if fieldNum in kinds {
      record, iNdEx, err := ReadKnownAt(kinds[fieldNum], fieldNum, wireType, dAtA, j);
    } else {
      var skippy, e := Skip(dAtA[preIndex..]);
      if e.Some? {
        return record, 0, e;
      }
      if skippy < 0 || AddInt(preIndex, skippy) < 0 {
        return record, 0, Some(InvalidLength);
      }
      if AddInt(preIndex, skippy) > |dAtA| {
        return record, 0, Some(UnexpectedEOF);
      }
      iNdEx := AddInt(preIndex, skippy);
    }
  }

  method ReadKnownAt(kind: Kind, fieldNum: int, wireType: nat, dAtA: Bytes, start: nat)
    returns (record: Record, iNdEx: int64, err: Option<CodecError>)
    requires start <= |dAtA| < TWO63
    ensures err == KnownFailure(kind, fieldNum, wireType, dAtA, start)
    ensures err.None? ==> ReadKnown(kind, fieldNum, wireType, dAtA, start) == Some((record, iNdEx))
  {
    hide ReadVarint;
    record, iNdEx, err := UnknownRecord, 0, None;
    if wireType != (if kind.Number? then 0 else 2) {
      return record, 0, Some(WrongWireType);
    }
    var v, k, e := ReadVarintAt(dAtA, start);
    if e.Some? {
      return record, 0, e;
    }
    if kind.Number? {
      return NumberRecord(fieldNum, v), k, None;
    }
    var byteLen := ToInt64(v);
    if byteLen < 0 {
      return record, 0, Some(InvalidLength);
    }
    var postIndex := AddInt(k, byteLen);
    if postIndex < 0 {
      return record, 0, Some(InvalidLength);
    }
    if postIndex > |dAtA| {
      return record, 0, Some(UnexpectedEOF);
    }
    return TextRecord(fieldNum, dAtA[k..postIndex]), postIndex, None;
  }

  // -------------------------------------------------------------------------------- Timestamp

  class Timestamp {
    var Seconds: int64
    var Nanos: int32

    constructor (m: TimestampValue)
      ensures Value() == m
    {
      Seconds, Nanos := m.seconds, m.nanos;
    }

    function Value(): TimestampValue
      reads this
    {
      TimestampValue(Seconds, Nanos)
    }

    method Size() returns (n: nat)
      ensures n == |EncodeTimestamp(Seconds, Nanos)|
    {
      n := NumberSize(0x08, ToUint64(Seconds)) + NumberSize(0x10, ToUint64(Nanos));
    }

    method MarshalToSizedBuffer(dAtA: array<byte>) returns (n: nat)
      requires |EncodeTimestamp(Seconds, Nanos)| <= dAtA.Length
      modifies dAtA
      ensures n == |EncodeTimestamp(Seconds, Nanos)|
      ensures Wrote(old(dAtA[..]), dAtA[..], dAtA.Length, dAtA.Length - n, EncodeTimestamp(Seconds, Nanos))
    {
      hide VarintField;
      var i := WriteNumber(dAtA, dAtA.Length, 0x10, ToUint64(Nanos));
      ghost var k, s := i, dAtA[..];
      i := WriteNumber(dAtA, i, 0x08, ToUint64(Seconds));
      WroteBoth(old(dAtA[..]), s, dAtA[..], dAtA.Length, k, i,
                VarintField(0x10, ToUint64(Nanos)), VarintField(0x08, ToUint64(Seconds)));
      n := dAtA.Length - i;
    }

    method Marshal() returns (dAtA: array<byte>)
      ensures fresh(dAtA) && dAtA[..] == EncodeTimestamp(Seconds, Nanos)
    {
      hide EncodeTimestamp;
      var size := Size();
      dAtA := new byte[size](_ => 0);
      var n := MarshalToSizedBuffer(dAtA);
      assert dAtA[..][0..] == EncodeTimestamp(Seconds, Nanos);
    }

    method Unmarshal(dAtA: Bytes) returns (err: Option<CodecError>)
      requires |dAtA| < TWO63
      modifies this
      ensures err == ParseFailure(TIMESTAMP_KINDS, dAtA, 0)
      ensures err.None? <==> ParseTimestamp(old(Value()), dAtA, 0).Some?
      ensures err.None? ==> ParseTimestamp(old(Value()), dAtA, 0) == Some(Value())
    {
      ParseFailureExact(TIMESTAMP_KINDS, ApplyTimestampRecord, Value(), dAtA, 0);
      var l := |dAtA|;
      var iNdEx: int64 := 0;
      while iNdEx < l
        invariant 0 <= iNdEx <= l
        invariant ParseTimestamp(old(Value()), dAtA, 0) == ParseTimestamp(Value(), dAtA, iNdEx)
        invariant ParseFailure(TIMESTAMP_KINDS, dAtA, 0) == ParseFailure(TIMESTAMP_KINDS, dAtA, iNdEx)
        decreases l - iNdEx
      {
        var record, next, e := ReadRecordAt(TIMESTAMP_KINDS, dAtA, iNdEx);
        if e.Some? {
          return e;
        }
        if record.NumberRecord? {
          if record.field == 1 {
            Seconds := ToInt64(record.number);
          } else if record.field == 2 {
            Nanos := ToInt32(record.number);
          }
        }
        iNdEx := next;
      }
      return None;
    }
  }

  // --------------------------------------------------------------------------------- round trip

  /** Once a first string is parsed, parsing goes on with any second one as if it stood alone. */
  lemma UpdateConcat(m: UpdateStateValue, a: Bytes, m1: UpdateStateValue, b: Bytes)
    requires ParseUpdate(m, a, 0) == Some(m1)
    ensures ParseUpdate(m, a + b, 0) == ParseUpdate(m1, b, 0)
  {
    ParseConcat(UPDATE_KINDS, ApplyUpdateRecord, m, a, m1, b);
  }

  lemma ParseNumberField(m: UpdateStateValue, f: nat, v: uint64)
    requires f == 1 || f == 2 || f == 4
    ensures ParseUpdate(m, VarintField((f * 8) as byte, v), 0) ==
            Some(if v == 0 then m else ApplyUpdateRecord(m, NumberRecord(f, v)))
  {
    if v != 0 {
      ReadNumberField(UPDATE_KINDS, f, v);
      ParseOne(UPDATE_KINDS, ApplyUpdateRecord, m, VarintField((f * 8) as byte, v), NumberRecord(f, v));
    }
  }

  lemma ParseLengthDelimited(m: UpdateStateValue, f: nat, t: Bytes)
    requires f == 3 || 5 <= f <= 8
    requires |t| < TWO63
    ensures ParseUpdate(m, LengthDelimited((f * 8 + 2) as byte, t), 0) == Some(ApplyUpdateRecord(m, TextRecord(f, t)))
  {
    ReadTextField(UPDATE_KINDS, f, t);
    ParseOne(UPDATE_KINDS, ApplyUpdateRecord, m, LengthDelimited((f * 8 + 2) as byte, t), TextRecord(f, t));
  }

  lemma ParseBytesField(m: UpdateStateValue, f: nat, t: Bytes)
    requires f == 3 || f == 5 || f == 8
    requires |t| < TWO63
    ensures ParseUpdate(m, BytesField((f * 8 + 2) as byte, t), 0) ==
            Some(if t == [] then m else ApplyUpdateRecord(m, TextRecord(f, t)))
  {
    if t != [] {
      ParseLengthDelimited(m, f, t);
    }
  }

  lemma {:induction false} ParseRepeated(m: UpdateStateValue, f: nat, bs: seq<Bytes>)
    requires f == 6 || f == 7
    requires forall b :: b in bs ==> |b| < TWO63
    ensures ParseUpdate(m, RepeatedField((f * 8 + 2) as byte, bs), 0) ==
            Some(if f == 6 then m.(simpleTreeProof := m.simpleTreeProof + bs) else m.(input := m.input + bs))
    decreases |bs|
  {
    var tag := (f * 8 + 2) as byte;
    if bs == [] {
      assert m.simpleTreeProof + bs == m.simpleTreeProof && m.input + bs == m.input;
    } else {
      var m1 := ApplyUpdateRecord(m, TextRecord(f, bs[0]));
      ParseLengthDelimited(m, f, bs[0]);
      ParseRepeated(m1, f, bs[1..]);
      assert [bs[0]] + bs[1..] == bs;
      assert m.simpleTreeProof + [bs[0]] + bs[1..] == m.simpleTreeProof + bs;
      assert m.input + [bs[0]] + bs[1..] == m.input + bs;
      UpdateConcat(m, LengthDelimited(tag, bs[0]), m1, RepeatedField(tag, bs[1..]));
    }
  }

  /** The same for timestamps. */
  lemma TimestampConcat(m: TimestampValue, a: Bytes, m1: TimestampValue, b: Bytes)
    requires ParseTimestamp(m, a, 0) == Some(m1)
    ensures ParseTimestamp(m, a + b, 0) == ParseTimestamp(m1, b, 0)
  {
    ParseConcat(TIMESTAMP_KINDS, ApplyTimestampRecord, m, a, m1, b);
  }

  /** A well-formed field with a number above 8, groups included, changes nothing between records. */
  lemma UpdateIgnoresUnknown(m: UpdateStateValue, a: Bytes, f: Field, b: Bytes)
    requires WellFormed(f) && f.number > 8
    requires ParseUpdate(m, a, 0).Some?
    ensures ParseUpdate(m, a + EncodeField(f) + b, 0) == ParseUpdate(m, a + b, 0)
  {
    WellFormedUnknownIgnored(UPDATE_KINDS, ApplyUpdateRecord, m, a, ParseUpdate(m, a, 0).value, f, b);
  }

  lemma TimestampIgnoresUnknown(m: TimestampValue, a: Bytes, f: Field, b: Bytes)
    requires WellFormed(f) && f.number > 2
    requires ParseTimestamp(m, a, 0).Some?
    ensures ParseTimestamp(m, a + EncodeField(f) + b, 0) == ParseTimestamp(m, a + b, 0)
  {
    WellFormedUnknownIgnored(TIMESTAMP_KINDS, ApplyTimestampRecord, m, a, ParseTimestamp(m, a, 0).value, f, b);
  }

  /** What an encoded message does to one that is already there: numbers and byte strings that are
      encoded replace the old ones, repeated fields grow. */
  function Merge(was: UpdateStateValue, m: UpdateStateValue): UpdateStateValue {
    UpdateStateValue(
      if m.trustedHeight != 0 then m.trustedHeight else was.trustedHeight,
      if m.untrustedHeight != 0 then m.untrustedHeight else was.untrustedHeight,
      if m.untrustedBlockHash != [] then m.untrustedBlockHash else was.untrustedBlockHash,
      if m.timestamp != 0 then m.timestamp else was.timestamp,
      if m.appHash != [] then m.appHash else was.appHash,
      was.simpleTreeProof + m.simpleTreeProof,
      was.input + m.input,
      if m.zkProof != [] then m.zkProof else was.zkProof)
  }

  /** The second half of the encoding. */
  lemma LastFieldsMerge(m4: UpdateStateValue, m: UpdateStateValue)
    requires Fits(m)
    ensures ParseUpdate(m4, LastFields(m), 0) ==
            Some(Merge(m4, m).(trustedHeight := m4.trustedHeight, untrustedHeight := m4.untrustedHeight,
                               untrustedBlockHash := m4.untrustedBlockHash, timestamp := m4.timestamp))
  {
    hide ParseUpdate, BytesField, RepeatedField;
    FieldsFit(m);
    var m5 := m4.(appHash := Merge(m4, m).appHash);
    var m6 := m5.(simpleTreeProof := m4.simpleTreeProof + m.simpleTreeProof);
    var m7 := m6.(input := m4.input + m.input);
    ParseBytesField(m4, 5, m.appHash);
    ParseRepeated(m5, 6, m.simpleTreeProof);
    ParseRepeated(m6, 7, m.input);
    ParseBytesField(m7, 8, m.zkProof);
    var b8 := BytesField(0x42, m.zkProof);
    var b7 := RepeatedField(0x3a, m.input) + b8;
    var b6 := RepeatedField(0x32, m.simpleTreeProof) + b7;
    UpdateConcat(m6, RepeatedField(0x3a, m.input), m7, b8);
    UpdateConcat(m5, RepeatedField(0x32, m.simpleTreeProof), m6, b7);
    UpdateConcat(m4, BytesField(0x2a, m.appHash), m5, b6);
  }

  /** Parsing the encoding of a message into any message merges the two. */
  lemma UpdateMerges(m0: UpdateStateValue, m: UpdateStateValue)
    requires Fits(m)
    ensures ParseUpdate(m0, EncodeUpdateState(m), 0) == Some(Merge(m0, m))
  {
    hide ParseUpdate, VarintField, BytesField, LastFields;
    FieldsFit(m);
    var r := Merge(m0, m);
    var m1 := m0.(trustedHeight := r.trustedHeight);
    var m2 := m1.(untrustedHeight := r.untrustedHeight);
    var m3 := m2.(untrustedBlockHash := r.untrustedBlockHash);
    var m4 := m3.(timestamp := r.timestamp);
    ParseNumberField(m0, 1, m.trustedHeight);
    ParseNumberField(m1, 2, m.untrustedHeight);
    ParseBytesField(m2, 3, m.untrustedBlockHash);
    ParseNumberField(m3, 4, m.timestamp);
    LastFieldsMerge(m4, m);
    var b4 := VarintField(0x20, m.timestamp) + LastFields(m);
    var b3 := BytesField(0x1a, m.untrustedBlockHash) + b4;
    var b2 := VarintField(0x10, m.untrustedHeight) + b3;
    UpdateConcat(m3, VarintField(0x20, m.timestamp), m4, LastFields(m));
    UpdateConcat(m2, BytesField(0x1a, m.untrustedBlockHash), m3, b4);
    UpdateConcat(m1, VarintField(0x10, m.untrustedHeight), m2, b3);
    UpdateConcat(m0, VarintField(0x08, m.trustedHeight), m1, b2);
  }

  /** Round trip: parsing the encoding of a message into an empty one gives the message. */
  lemma UpdateRoundTrip(m: UpdateStateValue)
    requires Fits(m)
    ensures ParseUpdate(EMPTY_UPDATE_STATE, EncodeUpdateState(m), 0) == Some(m)
  {
    hide ParseUpdate, EncodeUpdateState;
    UpdateMerges(EMPTY_UPDATE_STATE, m);
    assert [] + m.simpleTreeProof == m.simpleTreeProof && [] + m.input == m.input;
  }

  /** The same for timestamps. */
  lemma TimestampMerges(m0: TimestampValue, m: TimestampValue)
    ensures ParseTimestamp(m0, EncodeTimestamp(m.seconds, m.nanos), 0) ==
            Some(TimestampValue(if m.seconds != 0 then m.seconds else m0.seconds,
                                if m.nanos != 0 then m.nanos else m0.nanos))
  {
    var s, n := ToUint64(m.seconds), ToUint64(m.nanos);
    var m1 := m0.(seconds := if m.seconds != 0 then m.seconds else m0.seconds);
    SignedRoundTrip(m.seconds, m.nanos);
    hide ToUint64, ToInt64, ToInt32;
    if s != 0 {
      ReadNumberField(TIMESTAMP_KINDS, 1, s);
      ParseOne(TIMESTAMP_KINDS, ApplyTimestampRecord, m0, VarintField(0x08, s), NumberRecord(1, s));
    }
    if n != 0 {
      ReadNumberField(TIMESTAMP_KINDS, 2, n);
      ParseOne(TIMESTAMP_KINDS, ApplyTimestampRecord, m1, VarintField(0x10, n), NumberRecord(2, n));
    }
    TimestampConcat(m0, VarintField(0x08, s), m1, VarintField(0x10, n));
  }

  /** Round trip for timestamps, negative seconds and nanos included. */
  lemma TimestampRoundTrip(m: TimestampValue)
    ensures ParseTimestamp(EMPTY_TIMESTAMP, EncodeTimestamp(m.seconds, m.nanos), 0) == Some(m)
  {
    TimestampMerges(EMPTY_TIMESTAMP, m);
  }

  /** Two's complement loses nothing. */
  lemma SignedRoundTrip(s: int64, n: int32)
    ensures ToInt64(ToUint64(s)) == s && (ToUint64(s) == 0 <==> s == 0)
    ensures ToInt32(ToUint64(n)) == n && (ToUint64(n) == 0 <==> n == 0)
  {
  }
}
