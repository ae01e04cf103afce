/** Well-formed fields of the Protocol Buffers encoding guide ("Message Structure"), groups included,
    and how skipTendermintZKLightClient passes over them. */
module UnknownFields {
  import opened Bytes
  import opened ProtoWire
  import opened ProtoParse
  import Varint

  datatype Field = Field(number: nat, content: Content)

  datatype Content =
    | VarintContent(value: uint64)
    | Fixed64(bytes: Bytes)
    | LengthContent(bytes: Bytes)
    | Group(fields: seq<Field>)
    | Fixed32(bytes: Bytes)

  /** Field numbers have 29 bits and are positive; fixed-width contents have their width. */
  predicate WellFormed(f: Field) {
    && 0 < f.number < 0x2000_0000
    && match f.content
       case VarintContent(_) => true
       case Fixed64(b) => |b| == 8
       case LengthContent(b) => |b| < TWO63
       case Group(fields) => forall g :: g in fields ==> WellFormed(g)
       case Fixed32(b) => |b| == 4
  }

  function Tag(number: nat, wireType: nat): Bytes {
    Varint.Encode(number * 8 + wireType)
  }

  function WireType(c: Content): nat {
    match c
    case VarintContent(_) => 0
    case Fixed64(_) => 1
    case LengthContent(_) => 2
    case Group(_) => 3
    case Fixed32(_) => 5
  }

  function EncodeField(f: Field): Bytes
    decreases f, 0
  {
    Tag(f.number, WireType(f.content)) +
    match f.content
    case VarintContent(v) => Varint.Encode(v)
    case Fixed64(b) => b
    case LengthContent(b) => Varint.Encode(|b|) + b
    case Group(fields) => EncodeFields(fields) + Tag(f.number, 4)
    case Fixed32(b) => b
  }

  function EncodeFields(fs: seq<Field>): Bytes
    decreases fs, 1
  {
    if fs == [] then [] else EncodeField(fs[0]) + EncodeFields(fs[1..])
  }

  /** `e` stands at index `i`. */
  predicate At(b: Bytes, i: nat, e: Bytes) {
    i + |e| <= |b| && b[i..i + |e|] == e
  }

  lemma AtSplit(b: Bytes, i: nat, e: Bytes, f: Bytes)
    requires At(b, i, e + f)
    ensures At(b, i, e) && At(b, i + |e|, f)
  {
    var s := b[i..i + |e + f|];
    SliceOfSlice(b, i, |e + f|, 0, |e|);
    SliceOfSlice(b, i, |e + f|, |e|, |e + f|);
    assert s[0..|e|] == e && s[|e|..] == f;
  }

  lemma SkipTag(b: Bytes, i: nat, number: nat, wireType: nat, depth: nat)
    requires number < 0x2000_0000 && wireType < 8
    requires At(b, i, Tag(number, wireType))
    ensures i < |b|
    ensures SkipStep(b, i, depth) == SkipTo(b, i + |Tag(number, wireType)|, wireType, depth)
    ensures ReadVarint(b, i) == Some((number * 8 + wireType, i + |Tag(number, wireType)|))
  {
    ReadEncodedVarint(b, i, number * 8 + wireType);
  }

  lemma SkipEndAfterStep(b: Bytes, i: nat, depth: nat)
    requires i < |b| && SkipStep(b, i, depth).Some?
    ensures var (j, d) := SkipStep(b, i, depth).value;
            SkipEnd(b, i, depth) == if d == 0 then Some(j) else SkipEnd(b, j, d)
  {
  }

  lemma ReadVarintThere(b: Bytes, i: nat, v: uint64)
    requires At(b, i, Varint.Encode(v))
    ensures ReadVarint(b, i) == Some((v, i + |Varint.Encode(v)|))
  {
    ReadEncodedVarint(b, i, v);
  }

  /** Skipping passes over a well-formed field, and stops behind it when no group is open. */
  lemma {:induction false} SkipField(b: Bytes, i: nat, f: Field, depth: nat)
    requires WellFormed(f) && At(b, i, EncodeField(f))
    ensures var j := i + |EncodeField(f)|;
            SkipEnd(b, i, depth) == if depth == 0 then Some(j) else SkipEnd(b, j, depth)
    decreases f, 0
  {
    hide ReadVarint, Varint.Encode, At, Tag, EncodeFields, SkipEnd, SkipStep;
    var tag := Tag(f.number, WireType(f.content));
    var t := i + |tag|;
    match f.content {
      case VarintContent(v) =>
        AtSplit(b, i, tag, Varint.Encode(v));
        SkipTag(b, i, f.number, 0, depth);
        ReadVarintThere(b, t, v);
      case Fixed64(c) =>
        AtSplit(b, i, tag, c);
        SkipTag(b, i, f.number, 1, depth);
      case LengthContent(c) =>
        AtSplit(b, i, tag, Varint.Encode(|c|) + c);
        AtSplit(b, t, Varint.Encode(|c|), c);
        SkipTag(b, i, f.number, 2, depth);
        ReadVarintThere(b, t, |c|);
      case Group(fields) =>
        AtSplit(b, i, tag, EncodeFields(fields) + Tag(f.number, 4));
        SkipTag(b, i, f.number, 3, depth);
        SkipGroup(b, t, f, depth);
      case Fixed32(c) =>
        AtSplit(b, i, tag, c);
        SkipTag(b, i, f.number, 5, depth);
    }
    SkipEndAfterStep(b, i, depth);
  }

  /** Inside a group, skipping passes over its fields and the end tag. */
  lemma {:induction false} SkipGroup(b: Bytes, t: nat, f: Field, depth: nat)
    requires WellFormed(f) && f.content.Group?
    requires At(b, t, EncodeFields(f.content.fields) + Tag(f.number, 4))
    ensures var j := t + |EncodeFields(f.content.fields)| + |Tag(f.number, 4)|;
            SkipEnd(b, t, depth + 1) == if depth == 0 then Some(j) else SkipEnd(b, j, depth)
    decreases f.content.fields, 2
  {
    hide ReadVarint, Tag, EncodeFields, At, SkipEnd, SkipStep;
    var fields := f.content.fields;
    AtSplit(b, t, EncodeFields(fields), Tag(f.number, 4));
    SkipFields(b, t, fields, depth + 1);
    SkipTag(b, t + |EncodeFields(fields)|, f.number, 4, depth + 1);
    SkipEndAfterStep(b, t + |EncodeFields(fields)|, depth + 1);
  }

  lemma {:induction false} SkipFields(b: Bytes, i: nat, fs: seq<Field>, depth: nat)
    requires (forall g :: g in fs ==> WellFormed(g)) && At(b, i, EncodeFields(fs)) && depth > 0
    ensures SkipEnd(b, i, depth) == SkipEnd(b, i + |EncodeFields(fs)|, depth)
    decreases fs, 1
  {
    hide SkipEnd, WellFormed, At, EncodeField;
    if fs != [] {
      AtSplit(b, i, EncodeField(fs[0]), EncodeFields(fs[1..]));
      SkipField(b, i, fs[0], depth);
      SkipFields(b, i + |EncodeField(fs[0])|, fs[1..], depth);
    }
  }

  /** A well-formed field whose number the message does not know is read as an unknown record. */
  lemma FieldIsUnknown(kinds: map<int, Kind>, f: Field)
    requires WellFormed(f) && f.number !in kinds
    ensures UnknownField(kinds, EncodeField(f))
  {
    hide At, SkipEnd, ReadVarint, Tag, EncodeField;
    var u := EncodeField(f);
    Whole(u);
    SkipField(u, 0, f, 0);
    StartsWithTag(f);
    SkipTag(u, 0, f.number, WireType(f.content), 0);
  }

  lemma Whole(u: Bytes)
    ensures At(u, 0, u) && u[0..] == u
  {
  }

  lemma StartsWithTag(f: Field)
    ensures At(EncodeField(f), 0, Tag(f.number, WireType(f.content)))
  {
    hide Tag;
  }

  /** Such a field between records changes nothing, whatever follows. */
  lemma WellFormedUnknownIgnored<M>(kinds: map<int, Kind>, apply: (M, Record) -> M,
                                    m: M, a: Bytes, m1: M, f: Field, b: Bytes)
    requires forall m' :: apply(m', UnknownRecord) == m'
    requires WellFormed(f) && f.number !in kinds
    requires Parse(kinds, apply, m, a, 0) == Some(m1)
    ensures Parse(kinds, apply, m, a + EncodeField(f) + b, 0) == Parse(kinds, apply, m, a + b, 0)
  {
    FieldIsUnknown(kinds, f);
    UnknownFieldIgnored(kinds, apply, m, a, m1, EncodeField(f), b);
  }
}
