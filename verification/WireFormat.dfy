/** The wire format on literal bytes: which field number and which wire type each field of the
    messages has, what the skipper does with each wire type, and what the parser refuses. */
module WireFormat {
  import opened Bytes
  import opened ProtoWire
  import opened ProtoParse
  import opened ParseFailures
  import opened WireCodec
  import opened Messages
  import opened MessageCodec
  import Varint

  // ---------------------------------------------------------------------------- field numbers

  /** `b` is the encoding of `m`, and is parsed as `m` into an empty message. */
  predicate Writes(m: UpdateStateValue, b: Bytes) {
    EncodeUpdateState(m) == b && ParseUpdate(EMPTY_UPDATE_STATE, b, 0) == Some(m)
  }

  /** Heights and timestamp are varint fields 1, 2 and 4. */
  lemma NumberFormat(v: uint64)
    requires v != 0
    ensures Writes(EMPTY_UPDATE_STATE.(trustedHeight := v), [0x08] + Varint.Encode(v))
    ensures Writes(EMPTY_UPDATE_STATE.(untrustedHeight := v), [0x10] + Varint.Encode(v))
    ensures Writes(EMPTY_UPDATE_STATE.(timestamp := v), [0x20] + Varint.Encode(v))
  {
    ShortVarint(v);
    hide Varint.Encode;
    OneField(EMPTY_UPDATE_STATE.(trustedHeight := v), 0, [0x08] + Varint.Encode(v));
    OneField(EMPTY_UPDATE_STATE.(untrustedHeight := v), 1, [0x10] + Varint.Encode(v));
    OneField(EMPTY_UPDATE_STATE.(timestamp := v), 3, [0x20] + Varint.Encode(v));
  }

  /** Block hash, app hash and proof are length-delimited fields 3, 5 and 8. */
  lemma BytesFormat(t: Bytes)
    requires t != [] && |t| < TWO63 - 11
    ensures Writes(EMPTY_UPDATE_STATE.(untrustedBlockHash := t), [0x1a] + Varint.Encode(|t|) + t)
    ensures Writes(EMPTY_UPDATE_STATE.(appHash := t), [0x2a] + Varint.Encode(|t|) + t)
    ensures Writes(EMPTY_UPDATE_STATE.(zkProof := t), [0x42] + Varint.Encode(|t|) + t)
  {
    ShortVarint(|t|);
    hide Varint.Encode;
    OneField(EMPTY_UPDATE_STATE.(untrustedBlockHash := t), 2, [0x1a] + Varint.Encode(|t|) + t);
    OneField(EMPTY_UPDATE_STATE.(appHash := t), 4, [0x2a] + Varint.Encode(|t|) + t);
    OneField(EMPTY_UPDATE_STATE.(zkProof := t), 7, [0x42] + Varint.Encode(|t|) + t);
  }

  /** Siblings and inputs are repeated length-delimited fields 6 and 7. */
  lemma RepeatedFormat(t: Bytes)
    requires |t| < TWO63 - 11
    ensures Writes(EMPTY_UPDATE_STATE.(simpleTreeProof := [t]), [0x32] + Varint.Encode(|t|) + t)
    ensures Writes(EMPTY_UPDATE_STATE.(input := [t]), [0x3a] + Varint.Encode(|t|) + t)
  {
    ShortVarint(|t|);
    OneElement(0x32, t);
    OneElement(0x3a, t);
    NoElements();
    hide Varint.Encode, RepeatedField;
    OneField(EMPTY_UPDATE_STATE.(simpleTreeProof := [t]), 5, [0x32] + Varint.Encode(|t|) + t);
    OneField(EMPTY_UPDATE_STATE.(input := [t]), 6, [0x3a] + Varint.Encode(|t|) + t);
  }

  lemma NoElements()
    ensures RepeatedField(0x32, []) == [] && RepeatedField(0x3a, []) == []
  {
  }

  lemma OneElement(tag: byte, t: Bytes)
    ensures RepeatedField(tag, [t]) == [tag] + Varint.Encode(|t|) + t
  {
    hide Varint.Encode;
    assert [t][1..] == [];
    assert RepeatedField(tag, []) == [];
    assert LengthDelimited(tag, t) + [] == LengthDelimited(tag, t);
  }

  lemma ShortVarint(v: uint64)
    ensures |Varint.Encode(v)| <= 10
  {
    TenBytes();
    Varint.EncodeLength(v, 10);
  }

  function Parts(m: UpdateStateValue): (r: seq<Bytes>)
    ensures |r| == 8
  {
    [ VarintField(0x08, m.trustedHeight), VarintField(0x10, m.untrustedHeight),
      BytesField(0x1a, m.untrustedBlockHash), VarintField(0x20, m.timestamp),
      BytesField(0x2a, m.appHash), RepeatedField(0x32, m.simpleTreeProof),
      RepeatedField(0x3a, m.input), BytesField(0x42, m.zkProof) ]
  }

  /** A message with one field is written as that field. */
  lemma OneField(m: UpdateStateValue, k: nat, b: Bytes)
    requires |b| < TWO63 && k < 8 && Parts(m)[k] == b
    requires (k == 0 || m.trustedHeight == 0) && (k == 1 || m.untrustedHeight == 0)
    requires (k == 2 || m.untrustedBlockHash == []) && (k == 3 || m.timestamp == 0)
    requires (k == 4 || m.appHash == []) && (k == 5 || m.simpleTreeProof == [])
    requires (k == 6 || m.input == []) && (k == 7 || m.zkProof == [])
    ensures Writes(m, b)
  {
    AlonePart(m, k);
    hide VarintField, BytesField, RepeatedField, ParseUpdate, EncodeUpdateState, Parts;
    UpdateRoundTrip(m);
  }

  lemma AlonePart(m: UpdateStateValue, k: nat)
    requires k < 8
    requires (k == 0 || m.trustedHeight == 0) && (k == 1 || m.untrustedHeight == 0)
    requires (k == 2 || m.untrustedBlockHash == []) && (k == 3 || m.timestamp == 0)
    requires (k == 4 || m.appHash == []) && (k == 5 || m.simpleTreeProof == [])
    requires (k == 6 || m.input == []) && (k == 7 || m.zkProof == [])
    ensures EncodeUpdateState(m) == Parts(m)[k]
  {
    var p := Parts(m);
    hide Varint.Encode, LengthDelimited;
    OnePart(p[0], p[1], p[2], p[3], p[4], p[5], p[6], p[7], k, p[k]);
    hide VarintField, BytesField, RepeatedField;
  }

  lemma OnePart(p1: Bytes, p2: Bytes, p3: Bytes, p4: Bytes, p5: Bytes, p6: Bytes, p7: Bytes, p8: Bytes,
                k: nat, b: Bytes)
    requires k < 8 && [p1, p2, p3, p4, p5, p6, p7, p8][k] == b
    requires (k == 0 || p1 == []) && (k == 1 || p2 == []) && (k == 2 || p3 == []) && (k == 3 || p4 == [])
    requires (k == 4 || p5 == []) && (k == 5 || p6 == []) && (k == 6 || p7 == []) && (k == 7 || p8 == [])
    ensures p1 + (p2 + (p3 + (p4 + (p5 + (p6 + (p7 + p8)))))) == b
  {
    var q7 := p7 + p8;
    var q6 := p6 + q7;
    var q5 := p5 + q6;
    var q4 := p4 + q5;
    var q3 := p3 + q4;
    var q2 := p2 + q3;
    assert q7 == if k >= 6 then b else [];
    assert q6 == if k >= 5 then b else [];
    assert q5 == if k >= 4 then b else [];
    assert q4 == if k >= 3 then b else [];
    assert q3 == if k >= 2 then b else [];
    assert q2 == if k >= 1 then b else [];
  }

  /** Fields are written in the order of their numbers. */
  lemma FieldsInOrder(m: UpdateStateValue)
    ensures EncodeUpdateState(m) ==
            EncodeUpdateState(EMPTY_UPDATE_STATE.(trustedHeight := m.trustedHeight)) +
            (EncodeUpdateState(EMPTY_UPDATE_STATE.(untrustedHeight := m.untrustedHeight)) +
             (EncodeUpdateState(EMPTY_UPDATE_STATE.(untrustedBlockHash := m.untrustedBlockHash)) +
              (EncodeUpdateState(EMPTY_UPDATE_STATE.(timestamp := m.timestamp)) +
               (EncodeUpdateState(EMPTY_UPDATE_STATE.(appHash := m.appHash)) +
                (EncodeUpdateState(EMPTY_UPDATE_STATE.(simpleTreeProof := m.simpleTreeProof)) +
                 (EncodeUpdateState(EMPTY_UPDATE_STATE.(input := m.input)) +
                  EncodeUpdateState(EMPTY_UPDATE_STATE.(zkProof := m.zkProof))))))))
  {
    AlonePart(EMPTY_UPDATE_STATE.(trustedHeight := m.trustedHeight), 0);
    AlonePart(EMPTY_UPDATE_STATE.(untrustedHeight := m.untrustedHeight), 1);
    AlonePart(EMPTY_UPDATE_STATE.(untrustedBlockHash := m.untrustedBlockHash), 2);
    AlonePart(EMPTY_UPDATE_STATE.(timestamp := m.timestamp), 3);
    AlonePart(EMPTY_UPDATE_STATE.(appHash := m.appHash), 4);
    AlonePart(EMPTY_UPDATE_STATE.(simpleTreeProof := m.simpleTreeProof), 5);
    AlonePart(EMPTY_UPDATE_STATE.(input := m.input), 6);
    AlonePart(EMPTY_UPDATE_STATE.(zkProof := m.zkProof), 7);
    PartsOf(m);
    hide EncodeUpdateState, Parts;
  }

  lemma PartsOf(m: UpdateStateValue)
    ensures var p := Parts(m);
            EncodeUpdateState(m) == p[0] + (p[1] + (p[2] + (p[3] + (p[4] + (p[5] + (p[6] + p[7]))))))
    ensures Parts(EMPTY_UPDATE_STATE.(trustedHeight := m.trustedHeight))[0] == Parts(m)[0]
    ensures Parts(EMPTY_UPDATE_STATE.(untrustedHeight := m.untrustedHeight))[1] == Parts(m)[1]
    ensures Parts(EMPTY_UPDATE_STATE.(untrustedBlockHash := m.untrustedBlockHash))[2] == Parts(m)[2]
    ensures Parts(EMPTY_UPDATE_STATE.(timestamp := m.timestamp))[3] == Parts(m)[3]
    ensures Parts(EMPTY_UPDATE_STATE.(appHash := m.appHash))[4] == Parts(m)[4]
    ensures Parts(EMPTY_UPDATE_STATE.(simpleTreeProof := m.simpleTreeProof))[5] == Parts(m)[5]
    ensures Parts(EMPTY_UPDATE_STATE.(input := m.input))[6] == Parts(m)[6]
    ensures Parts(EMPTY_UPDATE_STATE.(zkProof := m.zkProof))[7] == Parts(m)[7]
  {
    hide VarintField, BytesField, RepeatedField;
  }

  /** Seconds and nanos are varint fields 1 and 2, negative numbers as ten bytes of two's complement. */
  lemma TimestampFormat(s: int64, n: int32)
    requires s != 0 && n != 0
    ensures var b := [0x08] + Varint.Encode(if s < 0 then s + TWO64 else s)
                     + ([0x10] + Varint.Encode(if n < 0 then n + TWO64 else n));
            EncodeTimestamp(s, n) == b && ParseTimestamp(EMPTY_TIMESTAMP, b, 0) == Some(TimestampValue(s, n))
  {
    hide ParseTimestamp, Varint.Encode;
    TimestampRoundTrip(TimestampValue(s, n));
  }

  /** A number of any size is cut to the 64 or 32 bits of the field. */
  lemma TimestampCuts(m: TimestampValue, v: uint64)
    ensures var r := ParseTimestamp(m, [0x08] + Varint.Encode(v), 0);
            r.Some? && (r.value.seconds - v) % TWO64 == 0 && r.value.nanos == m.nanos
    ensures var r := ParseTimestamp(m, [0x10] + Varint.Encode(v), 0);
            r.Some? && (r.value.nanos - v) % TWO32 == 0 && r.value.seconds == m.seconds
  {
    TwosComplement(v);
    hide Varint.Encode, ToInt64, ToInt32;
    ReadNumberField(TIMESTAMP_KINDS, 1, v);
    ParseOne(TIMESTAMP_KINDS, ApplyTimestampRecord, m, [0x08] + Varint.Encode(v), NumberRecord(1, v));
    ReadNumberField(TIMESTAMP_KINDS, 2, v);
    ParseOne(TIMESTAMP_KINDS, ApplyTimestampRecord, m, [0x10] + Varint.Encode(v), NumberRecord(2, v));
  }

  /** A tag with more than 32 bits of field number is read as the field its low bits name. */
  lemma TagIsCut(kinds: map<int, Kind>, wire: uint64, v: uint64)
    requires var f := ToInt32(wire / 8); f > 0 && f in kinds && kinds[f] == Number && wire % 8 == 0
    ensures var b := Varint.Encode(wire) + Varint.Encode(v);
            ReadRecord(kinds, b, 0) == Some((NumberRecord(ToInt32(wire / 8), v), |b|))
  {
    hide Varint.Encode, ReadVarint;
    var b, i := Varint.Encode(wire) + Varint.Encode(v), |Varint.Encode(wire)|;
    assert b[0..i] == Varint.Encode(wire) && b[i..i + |Varint.Encode(v)|] == Varint.Encode(v);
    ReadEncodedVarint(b, 0, wire);
    ReadEncodedVarint(b, i, v);
  }

  // ------------------------------------------------------------------------------- wire types

  /** Skipping field 15: a varint, eight bytes, a length and so many bytes, a group, four bytes. */
  lemma SkippedWireTypes(v: uint64, b8: Bytes, t: Bytes, b4: Bytes)
    requires |b8| == 8 && |b4| == 4 && |t| < TWO63
    ensures SkipEnd([0x78] + Varint.Encode(v), 0, 0) == Some(1 + |Varint.Encode(v)|)
    ensures SkipEnd([0x79] + b8, 0, 0) == Some(9)
    ensures SkipEnd([0x7a] + (Varint.Encode(|t|) + t), 0, 0) == Some(1 + |Varint.Encode(|t|)| + |t|)
    ensures SkipEnd([0x7b, 0x7d] + b4 + [0x7c], 0, 0) == Some(7)
    ensures SkipEnd([0x7d] + b4, 0, 0) == Some(5)
  {
    hide SkipEnd, Varint.Encode;
    SkippedVarint(v);
    SkippedFixed(0x79, b8);
    SkippedBytes(t);
    SkippedGroup(b4);
    SkippedFixed(0x7d, b4);
  }

  lemma SkippedVarint(v: uint64)
    ensures SkipEnd([0x78] + Varint.Encode(v), 0, 0) == Some(1 + |Varint.Encode(v)|)
  {
    hide Varint.Encode, ReadVarint;
    SkippedTag([0x78] + Varint.Encode(v), 0, 0x78);
    VarintBehind(0x78, v, []);
    assert Varint.Encode(v) + [] == Varint.Encode(v);
  }

  lemma SkippedFixed(tag: byte, b: Bytes)
    requires (tag == 0x79 && |b| == 8) || (tag == 0x7d && |b| == 4)
    ensures SkipEnd([tag] + b, 0, 0) == Some(1 + |b|)
  {
    hide ReadVarint;
    SkippedTag([tag] + b, 0, tag);
  }

  lemma SkippedBytes(t: Bytes)
    requires |t| < TWO63
    ensures SkipEnd([0x7a] + (Varint.Encode(|t|) + t), 0, 0) == Some(1 + |Varint.Encode(|t|)| + |t|)
  {
    hide Varint.Encode, ReadVarint;
    SkippedTag([0x7a] + (Varint.Encode(|t|) + t), 0, 0x7a);
    VarintBehind(0x7a, |t|, t);
  }

  lemma SkippedGroup(b4: Bytes)
    requires |b4| == 4
    ensures SkipEnd([0x7b, 0x7d] + b4 + [0x7c], 0, 0) == Some(7)
  {
    hide ReadVarint;
    var b := [0x7b, 0x7d] + b4 + [0x7c];
    SkippedTag(b, 0, 0x7b);
    SkippedTag(b, 1, 0x7d);
    SkippedTag(b, 6, 0x7c);
    assert SkipEnd(b, 6, 1) == Some(7);
    assert SkipEnd(b, 1, 1) == Some(7);
  }

  lemma SkippedTag(b: Bytes, i: nat, tag: byte)
    requires i < |b| && b[i] == tag < 128
    ensures ReadVarint(b, i) == Some((tag, i + 1))
  {
    assert b[i..i + 1] == Varint.Encode(tag);
    ReadEncodedVarint(b, i, tag);
  }

  lemma VarintBehind(tag: byte, v: uint64, rest: Bytes)
    ensures ReadVarint([tag] + (Varint.Encode(v) + rest), 1) == Some((v, 1 + |Varint.Encode(v)|))
  {
    hide Varint.Encode, ReadVarint;
    var b := [tag] + (Varint.Encode(v) + rest);
    assert b[1..1 + |Varint.Encode(v)|] == Varint.Encode(v);
    ReadEncodedVarint(b, 1, v);
  }

  // --------------------------------------------------------------------------------- refusals

  /** A tag is refused when it ends a group, when its field number, cut to 32 bits, is not positive,
      and when a known field has another wire type than its own. */
  lemma TagRefused(kinds: map<int, Kind>, wire: uint64, rest: Bytes)
    requires |Varint.Encode(wire) + rest| < TWO63
    ensures var b, f := Varint.Encode(wire) + rest, ToInt32(wire / 8);
            && (wire % 8 == 4 ==> ParseFailure(kinds, b, 0) == Some(EndGroupForNonGroup))
            && (wire % 8 != 4 && f <= 0 ==> ParseFailure(kinds, b, 0) == Some(IllegalTag))
            && (wire % 8 != 4 && f > 0 && f in kinds && wire % 8 != (if kinds[f].Number? then 0 else 2) ==>
                  ParseFailure(kinds, b, 0) == Some(WrongWireType))
            && (f > 0 && f !in kinds && wire % 8 >= 6 ==> ParseFailure(kinds, b, 0) == Some(IllegalWireType))
  {
    hide Varint.Encode, ReadVarint;
    var b := Varint.Encode(wire) + rest;
    assert b[0..|Varint.Encode(wire)|] == Varint.Encode(wire) && b[0..] == b;
    ReadEncodedVarint(b, 0, wire);
  }

  /** A byte string that is announced longer than the input is refused. */
  lemma LengthRefused(kinds: map<int, Kind>, f: nat, length: uint64, rest: Bytes)
    requires 0 < f < 16 && f in kinds && kinds[f] == Text
    requires |[(f * 8 + 2) as byte] + (Varint.Encode(length) + rest)| < TWO63 && length > |rest|
    ensures var b := [(f * 8 + 2) as byte] + (Varint.Encode(length) + rest);
            ParseFailure(kinds, b, 0) ==
            Some(if 1 + |Varint.Encode(length)| + length >= TWO63 then InvalidLength else UnexpectedEOF)
  {
    hide Varint.Encode, ReadVarint;
    var b := [(f * 8 + 2) as byte] + (Varint.Encode(length) + rest);
    VarintBehind((f * 8 + 2) as byte, length, rest);
    ReadTag(b, f, 2);
  }

  /** A group that does not end is refused. */
  lemma OpenGroupRefused(kinds: map<int, Kind>, f: nat)
    requires 0 < f < 16 && f !in kinds
    ensures ParseFailure(kinds, [(f * 8 + 3) as byte], 0) == Some(UnexpectedEOF)
  {
    hide ReadVarint;
    var b := [(f * 8 + 3) as byte];
    assert b[0..] == b;
    ReadTag(b, f, 3);
    assert SkipFailure(b, 1, 1) == Some(UnexpectedEOF);
  }
}
