/** Base 128 varints, as the Protocol Buffers encoding guide defines them under
    "Base 128 Varints". */
module Varint {
  import opened Arithmetic
  import opened Bytes

  /** The canonical encoding, least significant group first. */
  function Encode(v: nat): (r: Bytes)
    ensures r != []
  {
    if v < 128 then [v] else [v % 128 + 128] + Encode(v / 128)
  }

  /** The index just past the varint at index `i`; None when `b` ends inside it. */
  function End(b: Bytes, i: nat): (r: Option<nat>)
    ensures r.Some? ==> i < r.value <= |b|
    decreases |b| - i
  {
    if i >= |b| then None
    else if b[i] < 128 then Some(i + 1)
    else End(b, i + 1)
  }

  /** The unbounded value of the 7-bit groups at indices `i` to `j`. */
  function Value(b: Bytes, i: nat, j: nat): nat
    requires i <= j <= |b|
    decreases j - i
  {
    if i == j then 0 else b[i] % 128 + 128 * Value(b, i + 1, j)
  }

  function Pow128(k: nat): (r: nat)
    ensures r > 0
  {
    if k == 0 then 1 else 128 * Pow128(k - 1)
  }

  /** What a varint is depends on its own bytes only. */
  lemma {:induction false} EndLocal(a: Bytes, i: nat, b: Bytes, j: nat)
    requires End(a, i).Some?
    requires var n := End(a, i).value - i; j + n <= |b| && a[i..i + n] == b[j..j + n]
    ensures End(b, j) == Some(j + (End(a, i).value - i))
    ensures Value(a, i, End(a, i).value) == Value(b, j, End(b, j).value)
    decreases |a| - i
  {
    var n := End(a, i).value - i;
    assert a[i] == a[i..i + n][0] == b[j..j + n][0] == b[j];
    if a[i] >= 128 {
      assert a[i + 1..i + n] == a[i..i + n][1..] == b[j..j + n][1..] == b[j + 1..j + n];
      EndLocal(a, i + 1, b, j + 1);
    }
  }

  /** Decoding undoes encoding, wherever the encoding stands. */
  lemma {:induction false} DecodeEncode(v: nat)
    ensures var e := Encode(v); End(e, 0) == Some(|e|) && Value(e, 0, |e|) == v
  {
    var e := Encode(v);
    if v >= 128 {
      DecodeEncode(v / 128);
      var f := Encode(v / 128);
      assert e[1..1 + |f|] == f == f[0..|f|];
      EndLocal(f, 0, e, 1);
    }
  }

  lemma DecodeEncodeAt(b: Bytes, i: nat, v: nat)
    requires i + |Encode(v)| <= |b| && b[i..i + |Encode(v)|] == Encode(v)
    ensures End(b, i) == Some(i + |Encode(v)|) && Value(b, i, i + |Encode(v)|) == v
  {
    hide Encode, End, Value;
    var e := Encode(v);
    DecodeEncode(v);
    assert e[0..|e|] == e;
    EndLocal(e, 0, b, i);
  }

  /** A varint ends behind its first byte without the top bit. */
  lemma {:induction false} EndExact(b: Bytes, i: nat, j: nat)
    ensures End(b, i) == Some(j) <==> i < j <= |b| && b[j - 1] < 128 && forall k :: i <= k < j - 1 ==> b[k] >= 128
    decreases |b| - i
  {
    if i < |b| && b[i] >= 128 {
      EndExact(b, i + 1, j);
    }
  }

  lemma ValueOfNothing(b: Bytes, i: nat)
    requires i <= |b|
    ensures Value(b, i, i) == 0
  {
  }

  /** The value is the sum of the groups, the group at distance k times 128^k. */
  lemma {:induction false} ValueAppend(b: Bytes, i: nat, j: nat)
    requires i <= j < |b|
    ensures Value(b, i, i) == 0
    ensures Value(b, i, j + 1) == Value(b, i, j) + b[j] % 128 * Pow128(j - i)
    decreases j - i
  {
    if i < j {
      ValueAppend(b, i + 1, j);
      var x, y, p := b[j] % 128, Value(b, i + 1, j), Pow128(j - i - 1);
      assert 128 * (y + x * p) == 128 * y + x * (128 * p);
    } else {
      assert Value(b, i + 1, j + 1) == 0;
    }
  }

  /** Byte k holds group k, least significant first; all bytes but the last have the top bit. */
  lemma {:induction false} EncodeByte(v: nat, k: nat)
    requires k < |Encode(v)|
    ensures Encode(v)[k] == v / Pow128(k) % 128 + if k + 1 < |Encode(v)| then 128 else 0
  {
    if k > 0 {
      EncodeByte(v / 128, k - 1);
      DivTwice(v, Pow128(k - 1));
    }
  }

  lemma DivTwice(v: nat, p: nat)
    requires p > 0
    ensures v / 128 / p == v / (128 * p)
  {
    var q, r := v / 128 / p, v / 128 % p;
    assert v / 128 == q * p + r;
    assert v == q * (128 * p) + (128 * r + v % 128);
    DivModUnique(v, 128 * p, q, 128 * r + v % 128);
  }

  /** The example of the encoding guide. */
  lemma Encode300()
    ensures Encode(300) == [0xac, 0x02]
  {
    assert Encode(2) == [2];
  }

  /** Two encodings followed by anything are equal only if the values are. */
  lemma EncodeInjective(v: nat, w: nat, r: Bytes, s: Bytes)
    requires Encode(v) + r == Encode(w) + s
    ensures v == w && r == s
  {
    var b := Encode(v) + r;
    assert b[0..|Encode(v)|] == Encode(v) && b[0..|Encode(w)|] == Encode(w);
    DecodeEncodeAt(b, 0, v);
    DecodeEncodeAt(b, 0, w);
    SplitConcat(Encode(v), r, Encode(w), s);
  }

  /** A value takes at most k bytes exactly when it is below 128^k. */
  lemma {:induction false} EncodeLength(v: nat, k: nat)
    requires k > 0
    ensures |Encode(v)| <= k <==> v < Pow128(k)
  {
    assert Pow128(k) == 128 * Pow128(k - 1);
    if k > 1 && v >= 128 {
      EncodeLength(v / 128, k - 1);
    }
  }
}
