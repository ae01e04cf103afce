/** Which error the generated Go parser reports. Each function gives the error of the function of
    ProtoParse that it is named after, None when that one succeeds. */
module ParseFailures {
  import opened Bytes
  import opened ProtoWire
  import opened ProtoParse

  datatype CodecError =
    | IntOverflow
    | UnexpectedEOF
    | InvalidLength
    | UnexpectedEndOfGroup
    | EndGroupForNonGroup
    | IllegalTag
    | WrongWireType
    | IllegalWireType

  /** Ten bytes without an end overflow before the end of the input is noticed. */
  function VarintFailure(b: Bytes, i: nat): (r: Option<CodecError>)
    ensures r.None? <==> ReadVarint(b, i).Some?
  {
    if ReadVarint(b, i).Some? then None
    else if i + 10 <= |b| && forall k :: i <= k < i + 10 ==> b[k] >= 128 then Some(IntOverflow)
    else Some(UnexpectedEOF)
  }

  function SkipToFailure(b: Bytes, j: nat, wireType: nat, depth: nat): (r: Option<CodecError>)
    ensures r.None? <==> SkipTo(b, j, wireType, depth).Some?
  {
    match wireType
    case 0 => VarintFailure(b, j)
    case 1 => None
    case 2 => (match ReadVarint(b, j)
               case None => VarintFailure(b, j)
               case Some((length, _)) => if length >= TWO63 then Some(InvalidLength) else None)
    case 3 => None
    case 4 => if depth == 0 then Some(UnexpectedEndOfGroup) else None
    case 5 => None
    case _ => Some(IllegalWireType)
  }

  /** A field that ends at no int has an invalid length. */
  function SkipFailure(b: Bytes, i: nat, depth: nat): (r: Option<CodecError>)
    requires |b| < TWO63
    ensures r.None? <==> SkipEnd(b, i, depth).Some? && SkipEnd(b, i, depth).value < TWO63
    decreases |b| - i
  {
    if i >= |b| then Some(UnexpectedEOF)
    else match ReadVarint(b, i)
      case None => VarintFailure(b, i)
      case Some((wire, j)) =>
        match SkipTo(b, j, wire % 8, depth)
        case None => SkipToFailure(b, j, wire % 8, depth)
        case Some((k, d)) =>
          if k >= TWO63 then Some(InvalidLength)
          else if d == 0 then None
          else SkipFailure(b, k, d)
  }

  function KnownFailure(kind: Kind, field: int, wireType: nat, b: Bytes, j: nat): (r: Option<CodecError>)
    requires j <= |b| < TWO63
    ensures r.None? <==> ReadKnown(kind, field, wireType, b, j).Some?
  {
    if wireType != (if kind.Number? then 0 else 2) then Some(WrongWireType)
    else match ReadVarint(b, j)
      case None => VarintFailure(b, j)
      case Some((v, k)) =>
        if kind.Number? then None
        else if v >= TWO63 || k + v >= TWO63 then Some(InvalidLength)
        else if k + v > |b| then Some(UnexpectedEOF)
        else None
  }

  function RecordFailure(kinds: map<int, Kind>, b: Bytes, i: nat): (r: Option<CodecError>)
    requires i <= |b| < TWO63
    ensures r.None? <==> ReadRecord(kinds, b, i).Some?
  {
    match ReadVarint(b, i)
    case None => VarintFailure(b, i)
    case Some((wire, j)) =>
      var field := FieldNumber(wire);
      if wire % 8 == 4 then Some(EndGroupForNonGroup)
      else if field <= 0 then Some(IllegalTag)
      else if field in kinds then KnownFailure(kinds[field], field, wire % 8, b, j)
      else if SkipFailure(b[i..], 0, 0).Some? then SkipFailure(b[i..], 0, 0)
      else
        var n := SkipEnd(b[i..], 0, 0).value;
        if i + n >= TWO63 then Some(InvalidLength)
        else if i + n > |b| then Some(UnexpectedEOF)
        else None
  }

  /** The error of the first record that cannot be read. */
  function ParseFailure(kinds: map<int, Kind>, b: Bytes, i: nat): Option<CodecError>
    requires i <= |b| < TWO63
    decreases |b| - i
  {
    if i == |b| then None
    else match ReadRecord(kinds, b, i)
      case None => RecordFailure(kinds, b, i)
      case Some((_, j)) => ParseFailure(kinds, b, j)
  }

  /** Parsing succeeds exactly when there is no error, whatever the message is. */
  lemma {:induction false} ParseFailureExact<M>(kinds: map<int, Kind>, apply: (M, Record) -> M, m: M, b: Bytes, i: nat)
    requires i <= |b| < TWO63
    ensures ParseFailure(kinds, b, i).None? <==> Parse(kinds, apply, m, b, i).Some?
    decreases |b| - i
  {
    hide ReadRecord;
    if i < |b| && ReadRecord(kinds, b, i).Some? {
      var (record, j) := ReadRecord(kinds, b, i).value;
      ParseFailureExact(kinds, apply, apply(m, record), b, j);
    }
  }
}
