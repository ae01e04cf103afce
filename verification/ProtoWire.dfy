/** Field encodings of the Protocol Buffers encoding guide ("Message Structure"), with the integer
    conversions of Go. */
module ProtoWire {
  import opened Arithmetic
  import opened Bytes
  import Varint

  const TWO64: nat := 0x1_0000_0000_0000_0000
  const TWO63: nat := 0x8000_0000_0000_0000
  const TWO32: nat := 0x1_0000_0000
  const TWO31: nat := 0x8000_0000

  type uint64 = x: int | 0 <= x < TWO64
  type int64 = x: int | -(TWO63 as int) <= x < TWO63
  type int32 = x: int | -(TWO31 as int) <= x < TWO31

  /** Go's conversion from a signed integer: two's complement. */
  function ToUint64(x: int): uint64 {
    x % TWO64
  }

  function ToInt64(x: int): int64 {
    var u := x % TWO64;
    if u < TWO63 then u else u - TWO64
  }

  function ToInt32(x: int): int32 {
    var u := x % TWO32;
    if u < TWO31 then u else u - TWO32
  }

  /** The conversions keep the number modulo 2^64 or 2^32. */
  lemma TwosComplement(x: int)
    ensures (ToUint64(x) - x) % TWO64 == 0 && (ToInt64(x) - x) % TWO64 == 0 && (ToInt32(x) - x) % TWO32 == 0
  {
    DivModUnique(x % TWO64 - x, TWO64, -(x / TWO64), 0);
    DivModUnique(x % TWO64 - TWO64 - x, TWO64, -(x / TWO64) - 1, 0);
    DivModUnique(x % TWO32 - x, TWO32, -(x / TWO32), 0);
    DivModUnique(x % TWO32 - TWO32 - x, TWO32, -(x / TWO32) - 1, 0);
  }

  /** A number is omitted when it is zero. */
  function VarintField(tag: byte, v: nat): Bytes {
    if v == 0 then [] else [tag] + Varint.Encode(v)
  }

  /** A tag, a length and that many bytes. */
  function LengthDelimited(tag: byte, b: Bytes): Bytes {
    [tag] + Varint.Encode(|b|) + b
  }

  /** A byte string is omitted when it is empty. */
  function BytesField(tag: byte, b: Bytes): Bytes {
    if b == [] then [] else LengthDelimited(tag, b)
  }

  /** The elements of a repeated field are never omitted. */
  function RepeatedField(tag: byte, bs: seq<Bytes>): Bytes {
    if bs == [] then [] else LengthDelimited(tag, bs[0]) + RepeatedField(tag, bs[1..])
  }

  /** google.protobuf.Timestamp: seconds is field 1, nanos is field 2. */
  function EncodeTimestamp(seconds: int64, nanos: int32): Bytes {
    VarintField(0x08, ToUint64(seconds)) + VarintField(0x10, ToUint64(nanos))
  }

  /** A number field in front of bytes that do not start with its tag can be read back. */
  lemma VarintFieldInjective(tag: byte, v: nat, r: Bytes, w: nat, s: Bytes)
    requires VarintField(tag, v) + r == VarintField(tag, w) + s
    requires (r == [] || r[0] != tag) && (s == [] || s[0] != tag)
    ensures v == w && r == s
  {
    hide Varint.Encode;
    VarintFieldHead(tag, v, r);
    VarintFieldHead(tag, w, s);
    if v != 0 && w != 0 {
      SplitConcat([tag], Varint.Encode(v) + r, [tag], Varint.Encode(w) + s);
      Varint.EncodeInjective(v, w, r, s);
    }
  }

  lemma VarintFieldHead(tag: byte, v: nat, r: Bytes)
    ensures VarintField(tag, v) + r == if v == 0 then r else [tag] + (Varint.Encode(v) + r)
  {
  }

  /** Leaving out zero fields does not make two timestamps alike. */
  lemma EncodeTimestampInjective(s: int64, n: int32, s': int64, n': int32)
    requires EncodeTimestamp(s, n) == EncodeTimestamp(s', n')
    ensures s == s' && n == n'
  {
    hide Varint.Encode;
    var b, b' := VarintField(0x10, ToUint64(n)), VarintField(0x10, ToUint64(n'));
    VarintFieldInjective(0x08, ToUint64(s), b, ToUint64(s'), b');
    assert b + [] == b' + [];
    VarintFieldInjective(0x10, ToUint64(n), [], ToUint64(n'), []);
  }
}
