/** Parsing protobuf records, as the generated Go code of
    go/relay/TendermintZKLightClient.pb.go does: what one record is, how unknown fields are
    skipped, and parsing as a fold over records. */
module ProtoParse {
  import opened Bytes
  import opened ProtoWire
  import Varint

  // -------------------------------------------------------------------------------- one record

  /** A varint of at most ten bytes at index `i`: its value modulo 2^64 and the index after it. */
  function ReadVarint(b: Bytes, i: nat): (r: Option<(uint64, nat)>)
    ensures r.Some? ==> i < r.value.1 <= |b|
  {
    match Varint.End(b, i)
    case None => None
    case Some(j) => if j - i > 10 then None else Some((Varint.Value(b, i, j) % TWO64, j))
  }

  /** The field number of a tag is truncated to 32 bits. */
  function FieldNumber(wire: uint64): int32 {
    ToInt32(wire / 8)
  }

  /** Skipping the content of a field with this wire type inside `depth` open groups: the index
      and the depth after it. Lengths are taken as signed; the index may lie beyond the end. */
  function SkipTo(b: Bytes, j: nat, wireType: nat, depth: nat): (r: Option<(nat, nat)>)
    ensures r.Some? ==> j <= r.value.0
  {
    match wireType
    case 0 => (match ReadVarint(b, j)
               case None => None
               case Some((_, k)) => Some((k, depth)))
    case 1 => Some((j + 8, depth))
    case 2 => (match ReadVarint(b, j)
               case None => None
               case Some((length, k)) => if length >= TWO63 then None else Some((k + length, depth)))
    case 3 => Some((j, depth + 1))
    case 4 => if depth == 0 then None else Some((j, depth - 1))
    case 5 => Some((j + 4, depth))
    case _ => None
  }

  /** One tag and its content. */
  function SkipStep(b: Bytes, i: nat, depth: nat): (r: Option<(nat, nat)>)
    ensures r.Some? ==> i < r.value.0
  {
    match ReadVarint(b, i)
    case None => None
    case Some((wire, j)) => SkipTo(b, j, wire % 8, depth)
  }

  /** The index after the field, group included, that starts at `i`. */
  function SkipEnd(b: Bytes, i: nat, depth: nat): (r: Option<nat>)
    ensures r.Some? ==> i < r.value
    decreases |b| - i
  {
    if i >= |b| then None
    else match SkipStep(b, i, depth)
      case None => None
      case Some((j, d)) => if d == 0 then Some(j) else SkipEnd(b, j, d)
  }

  /** How the fields a message knows are encoded. */
  datatype Kind = Number | Text

  datatype Record =
    | NumberRecord(field: int, number: uint64)
    | TextRecord(field: int, text: Bytes)
    | UnknownRecord

  /** The record at index `i` and the index after it; None when the parser reports an error. */
  function ReadRecord(kinds: map<int, Kind>, b: Bytes, i: nat): (r: Option<(Record, nat)>)
    requires i <= |b|
    ensures r.Some? ==> i < r.value.1 <= |b|
  {
    match ReadVarint(b, i)
    case None => None
    case Some((wire, j)) =>
      var field := FieldNumber(wire);
      if wire % 8 == 4 || field <= 0 then None
      else if field in kinds then ReadKnown(kinds[field], field, wire % 8, b, j)
      else
        match SkipEnd(b[i..], 0, 0)
        case None => None
        case Some(n) => if i + n > |b| then None else Some((UnknownRecord, i + n))
  }

  function ReadKnown(kind: Kind, field: int, wireType: nat, b: Bytes, j: nat): (r: Option<(Record, nat)>)
    requires j <= |b|
    ensures r.Some? ==> j < r.value.1 <= |b|
  {
    match kind
    case Number =>
      if wireType != 0 then None
      else (match ReadVarint(b, j)
            case None => None
            case Some((v, k)) => Some((NumberRecord(field, v), k)))
    case Text =>
      if wireType != 2 then None
      else (match ReadVarint(b, j)
            case None => None
            case Some((length, k)) =>
              if length >= TWO63 || k + length > |b| then None
              else Some((TextRecord(field, b[k..k + length]), k + length)))
  }

  // --------------------------------------------------------------------- whole messages

  /** Parsing from index `i` on, into the message `m`. */
  function Parse<M>(kinds: map<int, Kind>, apply: (M, Record) -> M, m: M, b: Bytes, i: nat): Option<M>
    requires i <= |b|
    decreases |b| - i
  {
    if i == |b| then Some(m)
    else match ReadRecord(kinds, b, i)
      case None => None
      case Some((record, j)) => Parse(kinds, apply, apply(m, record), b, j)
  }

  // ------------------------------------------------------- a record depends on its bytes only

  lemma ReadVarintLocal(a: Bytes, i: nat, b: Bytes, j: nat)
    requires ReadVarint(a, i).Some?
    requires var n := ReadVarint(a, i).value.1 - i; j + n <= |b| && a[i..i + n] == b[j..j + n]
    ensures ReadVarint(b, j) == Some((ReadVarint(a, i).value.0, j + (ReadVarint(a, i).value.1 - i)))
  {
    Varint.EndLocal(a, i, b, j);
  }

  /** The bytes of a part of two equal stretches are equal. */
  lemma SubStretch(a: Bytes, i: nat, b: Bytes, j: nat, n: nat, from: nat, to: nat)
    requires i + n <= |a| && j + n <= |b| && a[i..i + n] == b[j..j + n]
    requires from <= to <= n
    ensures a[i + from..i + to] == b[j + from..j + to]
  {
    var x, y := a[i..i + n], b[j..j + n];
    assert a[i + from..i + to] == x[from..to] by {
      SliceOfSlice(a, i, n, from, to);
    }
    SliceOfSlice(b, j, n, from, to);
  }

  lemma SliceOfSlice(a: Bytes, i: nat, n: nat, from: nat, to: nat)
    requires i + n <= |a| && from <= to <= n
    ensures a[i..i + n][from..to] == a[i + from..i + to]
  {
    var s, t := a[i..i + n][from..to], a[i + from..i + to];
    assert |s| == |t|;
    forall k | 0 <= k < |s|
      ensures s[k] == t[k]
    {
      assert s[k] == a[i..i + n][from + k] == a[i + (from + k)];
    }
  }

  /** A skip step that ends inside a common prefix is the same in both strings. */
  lemma SkipStepLocal(a: Bytes, b: Bytes, i: nat, depth: nat, n: nat)
    requires n <= |a| && n <= |b| && a[..n] == b[..n]
    requires SkipStep(a, i, depth).Some? && SkipStep(a, i, depth).value.0 <= n
    ensures SkipStep(b, i, depth) == SkipStep(a, i, depth)
  {
    hide ReadVarint;
    var (wire, j) := ReadVarint(a, i).value;
    assert a[0..0 + n] == b[0..0 + n];
    SubStretch(a, 0, b, 0, n, i, j);
    ReadVarintLocal(a, i, b, i);
    if wire % 8 == 0 || wire % 8 == 2 {
      var k := ReadVarint(a, j).value.1;
      SubStretch(a, 0, b, 0, n, j, k);
      ReadVarintLocal(a, j, b, j);
    }
  }

  lemma {:induction false} SkipEndGrows(b: Bytes, i: nat, depth: nat)
    requires i < |b| && SkipEnd(b, i, depth).Some?
    ensures SkipStep(b, i, depth).Some? && SkipStep(b, i, depth).value.0 <= SkipEnd(b, i, depth).value
  {
  }

  lemma {:induction false} SkipEndLocal(a: Bytes, b: Bytes, i: nat, depth: nat, n: nat)
    requires n <= |a| && n <= |b| && a[..n] == b[..n]
    requires SkipEnd(a, i, depth) == Some(n)
    ensures SkipEnd(b, i, depth) == Some(n)
    decreases |a| - i
  {
    SkipEndGrows(a, i, depth);
    SkipStepLocal(a, b, i, depth, n);
    var (j, d) := SkipStep(a, i, depth).value;
    if d != 0 {
      SkipEndLocal(a, b, j, d, n);
    }
  }

  lemma ReadKnownLocal(kind: Kind, field: int, wireType: nat, a: Bytes, i: nat, b: Bytes, j: nat)
    requires i <= |a| && ReadKnown(kind, field, wireType, a, i).Some?
    requires var n := ReadKnown(kind, field, wireType, a, i).value.1 - i; j + n <= |b| && a[i..i + n] == b[j..j + n]
    ensures var (record, e) := ReadKnown(kind, field, wireType, a, i).value;
            ReadKnown(kind, field, wireType, b, j) == Some((record, j + (e - i)))
  {
    var n := ReadKnown(kind, field, wireType, a, i).value.1 - i;
    var (v, k) := ReadVarint(a, i).value;
    SubStretch(a, i, b, j, n, 0, k - i);
    ReadVarintLocal(a, i, b, j);
    if kind.Text? {
      SubStretch(a, i, b, j, n, k - i, k - i + v);
    }
  }

  /** A record depends on its own bytes only, wherever they stand. */
  lemma ReadRecordLocal(kinds: map<int, Kind>, a: Bytes, i: nat, b: Bytes, j: nat)
    requires i <= |a| && ReadRecord(kinds, a, i).Some?
    requires var n := ReadRecord(kinds, a, i).value.1 - i; j + n <= |b| && a[i..i + n] == b[j..j + n]
    ensures var (record, e) := ReadRecord(kinds, a, i).value;
            ReadRecord(kinds, b, j) == Some((record, j + (e - i)))
  {
    hide SkipEnd, ReadKnown, ReadVarint;
    var n := ReadRecord(kinds, a, i).value.1 - i;
    var (wire, t) := ReadVarint(a, i).value;
    var field := FieldNumber(wire);
    if field in kinds {
      SubStretch(a, i, b, j, n, 0, t - i);
      ReadVarintLocal(a, i, b, j);
      SubStretch(a, i, b, j, n, t - i, n);
      ReadKnownLocal(kinds[field], field, wire % 8, a, t, b, j + (t - i));
    } else {
      SkippedLocal(a, i, b, j, n);
    }
  }

  /** The same for a field that is skipped. */
  lemma SkippedLocal(a: Bytes, i: nat, b: Bytes, j: nat, n: nat)
    requires i + n <= |a| && j + n <= |b| && a[i..i + n] == b[j..j + n]
    requires ReadVarint(a, i).Some? && SkipEnd(a[i..], 0, 0) == Some(n)
    ensures SkipEnd(b[j..], 0, 0) == Some(n)
    ensures ReadVarint(b, j) == Some((ReadVarint(a, i).value.0, j + (ReadVarint(a, i).value.1 - i)))
  {
    var t := ReadVarint(a, i).value.1;
    SkipTagInside(a[i..]);
    TagOfSlice(a, i);
    assert a[i..][..n] == a[i..i + n] && b[j..][..n] == b[j..j + n];
    SubStretch(a, i, b, j, n, 0, t - i);
    ReadVarintLocal(a, i, b, j);
    SkipEndLocal(a[i..], b[j..], 0, 0, n);
  }

  /** A skipped field contains its own tag. */
  lemma SkipTagInside(b: Bytes)
    requires SkipEnd(b, 0, 0).Some?
    ensures ReadVarint(b, 0).Some? && ReadVarint(b, 0).value.1 <= SkipEnd(b, 0, 0).value
  {
    SkipEndGrows(b, 0, 0);
  }

  lemma TagOfSlice(a: Bytes, i: nat)
    requires i <= |a| && ReadVarint(a, i).Some?
    ensures ReadVarint(a[i..], 0) == Some((ReadVarint(a, i).value.0, ReadVarint(a, i).value.1 - i))
  {
    var n := ReadVarint(a, i).value.1 - i;
    assert a[i..i + n] == a[i..][0..0 + n];
    ReadVarintLocal(a, i, a[i..], 0);
  }

  // ------------------------------------------------------------------- parsing is a fold

  /** At the end of a string a record is read, or refused, as it is alone. */
  lemma ReadRecordSuffix(kinds: map<int, Kind>, a: Bytes, b: Bytes, i: nat)
    requires i <= |b|
    ensures ReadRecord(kinds, a + b, |a| + i) ==
            match ReadRecord(kinds, b, i)
            case None => None
            case Some((record, j)) => Some((record, |a| + j))
  {
    hide ReadRecord;
    if ReadRecord(kinds, b, i).Some? {
      var j := ReadRecord(kinds, b, i).value.1;
      assert (a + b)[|a| + i..|a| + j] == b[i..j];
      ReadRecordLocal(kinds, b, i, a + b, |a| + i);
    } else if ReadRecord(kinds, a + b, |a| + i).Some? {
      var j := ReadRecord(kinds, a + b, |a| + i).value.1;
      assert (a + b)[|a| + i..j] == b[i..j - |a|];
      ReadRecordLocal(kinds, a + b, |a| + i, b, i);
    }
  }

  /** Parsing what stands at the end of a string is parsing it alone, failures included. */
  lemma {:induction false} ParseSuffix<M>(kinds: map<int, Kind>, apply: (M, Record) -> M,
                                          m: M, a: Bytes, b: Bytes, i: nat)
    requires i <= |b|
    ensures Parse(kinds, apply, m, a + b, |a| + i) == Parse(kinds, apply, m, b, i)
    decreases |b| - i
  {
    hide ReadRecord;
    if i < |b| {
      ReadRecordSuffix(kinds, a, b, i);
      if ReadRecord(kinds, b, i).Some? {
        var (record, j) := ReadRecord(kinds, b, i).value;
        ParseSuffix(kinds, apply, apply(m, record), a, b, j);
      }
    }
  }

  /** After the records of a first part, parsing goes on with the rest. */
  lemma {:induction false} ParsePrefix<M>(kinds: map<int, Kind>, apply: (M, Record) -> M,
                                          m: M, a: Bytes, b: Bytes, i: nat)
    requires i <= |a| && Parse(kinds, apply, m, a, i).Some?
    ensures Parse(kinds, apply, m, a + b, i) ==
            Parse(kinds, apply, Parse(kinds, apply, m, a, i).value, a + b, |a|)
    decreases |a| - i
  {
    hide ReadRecord;
    if i < |a| {
      var (record, j) := ReadRecord(kinds, a, i).value;
      assert (a + b)[i..j] == a[i..j];
      ReadRecordLocal(kinds, a, i, a + b, i);
      ParsePrefix(kinds, apply, apply(m, record), a, b, j);
    }
  }

  /** Parsing is a fold over records: once a first string is parsed, parsing its concatenation with
      any second one gives what parsing the second one gives, failure included. */
  lemma ParseConcat<M>(kinds: map<int, Kind>, apply: (M, Record) -> M, m: M, a: Bytes, m1: M, b: Bytes)
    requires Parse(kinds, apply, m, a, 0) == Some(m1)
    ensures Parse(kinds, apply, m, a + b, 0) == Parse(kinds, apply, m1, b, 0)
  {
    ParsePrefix(kinds, apply, m, a, b, 0);
    ParseSuffix(kinds, apply, m1, a, b, 0);
  }

  /** `u` is one field, possibly a group, that the message does not know. */
  predicate UnknownField(kinds: map<int, Kind>, u: Bytes) {
    ReadRecord(kinds, u, 0) == Some((UnknownRecord, |u|))
  }

  /** An unknown field between records changes nothing, whatever follows. */
  lemma UnknownFieldIgnored<M>(kinds: map<int, Kind>, apply: (M, Record) -> M,
                               m: M, a: Bytes, m1: M, u: Bytes, b: Bytes)
    requires forall m' :: apply(m', UnknownRecord) == m'
    requires UnknownField(kinds, u)
    requires Parse(kinds, apply, m, a, 0) == Some(m1)
    ensures Parse(kinds, apply, m, a + u + b, 0) == Parse(kinds, apply, m, a + b, 0)
  {
    ParseOne(kinds, apply, m1, u, UnknownRecord);
    ParseConcat(kinds, apply, m, a, m1, b);
    ParseConcat(kinds, apply, m, a, m1, u);
    ParseConcat(kinds, apply, m, a + u, m1, b);
  }

  // ------------------------------------------------------------------- encoded records

  lemma ReadEncodedVarint(b: Bytes, i: nat, v: uint64)
    requires i + |Varint.Encode(v)| <= |b| && b[i..i + |Varint.Encode(v)|] == Varint.Encode(v)
    ensures ReadVarint(b, i) == Some((v, i + |Varint.Encode(v)|))
  {
    TenBytes();
    ReadAnyVarint(b, i, v);
  }

  /** Ten bytes hold 70 bits; of their value the low 64 are read, and longer varints are refused. */
  lemma ReadAnyVarint(b: Bytes, i: nat, v: nat)
    requires i + |Varint.Encode(v)| <= |b| && b[i..i + |Varint.Encode(v)|] == Varint.Encode(v)
    ensures ReadVarint(b, i) == if v < 0x40_0000_0000_0000_0000 then Some((v % TWO64, i + |Varint.Encode(v)|)) else None
  {
    Varint.DecodeEncodeAt(b, i, v);
    Varint.EncodeLength(v, 10);
    TenBytes();
  }

  lemma TenBytes()
    ensures Varint.Pow128(10) == 0x40_0000_0000_0000_0000
  {
    assert Varint.Pow128(5) == 0x8_0000_0000;
  }

  /** The tag of field `f` with wire type `t`, for the small field numbers of these messages. */
  lemma ReadTag(b: Bytes, f: nat, t: nat)
    requires 0 < f < 16 && t < 8 && b != [] && b[0] == f * 8 + t
    ensures ReadVarint(b, 0) == Some((f * 8 + t, 1)) && FieldNumber(f * 8 + t) == f
  {
    assert b[0..0 + 1] == Varint.Encode(f * 8 + t);
    ReadEncodedVarint(b, 0, f * 8 + t);
  }

  lemma ReadNumberField(kinds: map<int, Kind>, f: nat, v: uint64)
    requires 0 < f < 16 && f in kinds && kinds[f] == Number
    ensures var b := [(f * 8) as byte] + Varint.Encode(v);
            ReadRecord(kinds, b, 0) == Some((NumberRecord(f, v), |b|))
  {
    hide ReadVarint, Varint.Encode, FieldNumber;
    var b := [(f * 8) as byte] + Varint.Encode(v);
    ReadTag(b, f, 0);
    assert b[1..1 + |Varint.Encode(v)|] == Varint.Encode(v);
    ReadEncodedVarint(b, 1, v);
  }

  lemma ReadTextField(kinds: map<int, Kind>, f: nat, text: Bytes)
    requires 0 < f < 16 && f in kinds && kinds[f] == Text && |text| < TWO63
    ensures var b := LengthDelimited((f * 8 + 2) as byte, text);
            ReadRecord(kinds, b, 0) == Some((TextRecord(f, text), |b|))
  {
    hide ReadVarint, Varint.Encode, FieldNumber;
    var b := LengthDelimited((f * 8 + 2) as byte, text);
    var e := Varint.Encode(|text|);
    ReadTag(b, f, 2);
    assert b[1..1 + |e|] == e;
    ReadEncodedVarint(b, 1, |text|);
    assert b[1 + |e|..1 + |e| + |text|] == text;
  }

  /** One record alone. */
  lemma ParseOne<M>(kinds: map<int, Kind>, apply: (M, Record) -> M, m: M, b: Bytes, record: Record)
    requires ReadRecord(kinds, b, 0) == Some((record, |b|))
    ensures Parse(kinds, apply, m, b, 0) == Some(apply(m, record))
  {
  }
}
