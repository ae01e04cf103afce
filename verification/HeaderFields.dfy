/** The 14 leaves of a header, read back: each one decodes to the field of the header that CometBFT
    puts at that place. */
module HeaderFields {
  import opened Bytes
  import opened ProtoWire
  import opened ProtoParse
  import opened RelayerTree
  import opened Messages
  import MessageCodec
  import TendermintHeader

  /** The wrapper messages StringValue and BytesValue have one length-delimited field, number 1. */
  function TextValue(b: Bytes): Option<Bytes> {
    Parse(map[1 := Text], TakeText, [], b, 0)
  }

  function TakeText(t: Bytes, r: Record): Bytes {
    if r.TextRecord? && r.field == 1 then r.text else t
  }

  /** Int64Value has one varint field, number 1. */
  function NumberValue(b: Bytes): Option<int64> {
    Parse(map[1 := Number], TakeNumber, 0, b, 0)
  }

  function TakeNumber(n: int64, r: Record): int64 {
    if r.NumberRecord? && r.field == 1 then ToInt64(r.number) else n
  }

  lemma TextReadBack(t: Bytes)
    requires |t| < TWO63
    ensures TextValue(BytesField(0x0a, t)) == Some(t)
  {
    if t != [] {
      ReadTextField(map[1 := Text], 1, t);
      ParseOne(map[1 := Text], TakeText, [], BytesField(0x0a, t), TextRecord(1, t));
    }
  }

  lemma NumberReadBack(n: int64)
    ensures NumberValue(VarintField(0x08, ToUint64(n))) == Some(n)
  {
    MessageCodec.SignedRoundTrip(n, 0);
    hide ToUint64, ToInt64;
    if n != 0 {
      ReadNumberField(map[1 := Number], 1, ToUint64(n));
      ParseOne(map[1 := Number], TakeNumber, 0, VarintField(0x08, ToUint64(n)), NumberRecord(1, ToUint64(n)));
    }
  }

  /** An encoded time is whole seconds and the nanoseconds of the last one. */
  lemma TimeReadBack(time: uint64)
    ensures var r := MessageCodec.ParseTimestamp(EMPTY_TIMESTAMP, TendermintHeader.TimestampBytes(time), 0);
            && r.Some? && r.value.seconds * 1_000_000_000 + r.value.nanos == time
            && 0 <= r.value.nanos < 1_000_000_000
  {
    hide MessageCodec.ParseTimestamp;
    MessageCodec.TimestampRoundTrip(TimestampValue(time / 1_000_000_000, time % 1_000_000_000));
  }

  /** Of every header, the fields other than version and last block id, which are given encoded. */
  lemma FieldsReadBack(h: Header)
    requires |h.chainID| < TWO63 && |h.lastCommitHash| < TWO63 && |h.dataHash| < TWO63
    requires |h.validatorsHash| < TWO63 && |h.nextValidatorsHash| < TWO63 && |h.consensusHash| < TWO63
    requires |h.appHash| < TWO63 && |h.lastResultsHash| < TWO63 && |h.evidenceHash| < TWO63
    requires |h.proposerAddress| < TWO63
    ensures var f := Fields(h);
            && f[0] == h.version && f[4] == h.lastBlockID
            && TextValue(f[1]) == Some(h.chainID)
            && NumberValue(f[2]) == Some(h.height)
            && TextValue(f[5]) == Some(h.lastCommitHash)
            && TextValue(f[6]) == Some(h.dataHash)
            && TextValue(f[7]) == Some(h.validatorsHash)
            && TextValue(f[8]) == Some(h.nextValidatorsHash)
            && TextValue(f[9]) == Some(h.consensusHash)
            && TextValue(f[10]) == Some(h.appHash)
            && TextValue(f[11]) == Some(h.lastResultsHash)
            && TextValue(f[12]) == Some(h.evidenceHash)
            && TextValue(f[13]) == Some(h.proposerAddress)
    ensures var r := MessageCodec.ParseTimestamp(EMPTY_TIMESTAMP, Fields(h)[3], 0);
            && r.Some? && r.value.seconds * 1_000_000_000 + r.value.nanos == h.time
            && 0 <= r.value.nanos < 1_000_000_000
  {
    hide TextValue, NumberValue, MessageCodec.ParseTimestamp, BytesField, VarintField, EncodeTimestamp, ToUint64;
    TextReadBack(h.chainID);
    NumberReadBack(h.height);
    TimeReadBack(h.time);
    TextReadBack(h.lastCommitHash);
    TextReadBack(h.dataHash);
    TextReadBack(h.validatorsHash);
    TextReadBack(h.nextValidatorsHash);
    TextReadBack(h.consensusHash);
    TextReadBack(h.appHash);
    TextReadBack(h.lastResultsHash);
    TextReadBack(h.evidenceHash);
    TextReadBack(h.proposerAddress);
  }
}
