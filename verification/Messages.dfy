/** The values of the messages of go/relay/TendermintZKLightClient.pb.go and their encodings,
    fields in increasing number. A nil and an empty byte string are the same value here. */
module Messages {
  import opened Bytes
  import opened ProtoWire

  datatype UpdateStateValue = UpdateStateValue(
    trustedHeight: uint64,
    untrustedHeight: uint64,
    untrustedBlockHash: Bytes,
    timestamp: uint64,
    appHash: Bytes,
    simpleTreeProof: seq<Bytes>,
    input: seq<Bytes>,
    zkProof: Bytes)

  const EMPTY_UPDATE_STATE: UpdateStateValue := UpdateStateValue(0, 0, [], 0, [], [], [], [])

  function EncodeUpdateState(m: UpdateStateValue): Bytes {
    VarintField(0x08, m.trustedHeight) +
    (VarintField(0x10, m.untrustedHeight) +
     (BytesField(0x1a, m.untrustedBlockHash) +
      (VarintField(0x20, m.timestamp) +
       LastFields(m))))
  }

  function LastFields(m: UpdateStateValue): Bytes {
    BytesField(0x2a, m.appHash) +
    (RepeatedField(0x32, m.simpleTreeProof) +
     (RepeatedField(0x3a, m.input) +
      BytesField(0x42, m.zkProof)))
  }

  datatype TimestampValue = TimestampValue(seconds: int64, nanos: int32)

  const EMPTY_TIMESTAMP: TimestampValue := TimestampValue(0, 0)
}
