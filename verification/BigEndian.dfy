/** Big-endian integers, as Solidity, `encoding/binary` and `math/big` convert them. */
module BigEndian {
  import opened Bytes
  import opened Arithmetic

  function Pow256(k: nat): (r: nat)
    ensures r > 0
  {
    if k == 0 then 1 else 256 * Pow256(k - 1)
  }

  /** The number `b` spells, most significant byte first. */
  function ToNat(b: Bytes): nat {
    if b == [] then 0 else ToNat(b[..|b| - 1]) * 256 + b[|b| - 1]
  }

  /** The `k` low bytes of `v`. */
  function FromNat(v: nat, k: nat): (r: Bytes)
    ensures |r| == k
  {
    if k == 0 then [] else FromNat(v / 256, k - 1) + [v % 256]
  }

  /** big.Int's Bytes: no leading zeros. */
  function MinBytes(v: nat): Bytes {
    if v == 0 then [] else MinBytes(v / 256) + [v % 256]
  }

  /** Solidity's conversion of a byte string to bytes32: cut off, or padded on the right. */
  function Bytes32(b: Bytes): Digest {
    if |b| >= 32 then b[..32] else b + Zeros(32 - |b|)
  }

  lemma {:induction false} ToNatFromNat(v: nat, k: nat)
    ensures ToNat(FromNat(v, k)) == v % Pow256(k)
  {
    if k > 0 {
      ToNatFromNat(v / 256, k - 1);
      var b := FromNat(v, k);
      assert b[..k - 1] == FromNat(v / 256, k - 1);
      DivModPow(v, k);
    }
  }

  /** A string is the encoding of its number. */
  lemma {:induction false} FromNatToNat(b: Bytes)
    ensures FromNat(ToNat(b), |b|) == b
  {
    if b != [] {
      var n := |b| - 1;
      FromNatToNat(b[..n]);
      assert ToNat(b) / 256 == ToNat(b[..n]) && ToNat(b) % 256 == b[n];
      assert b == b[..n] + [b[n]];
    }
  }

  lemma {:induction false} FromZero(k: nat)
    ensures FromNat(0, k) == Zeros(k)
  {
    if k > 0 {
      FromZero(k - 1);
    }
  }

  lemma DivModPow(v: nat, k: nat)
    requires k > 0
    ensures (v / 256) % Pow256(k - 1) * 256 + v % 256 == v % Pow256(k)
  {
    var p := Pow256(k - 1);
    var q, r := (v / 256) / p, (v / 256) % p;
    assert v == 256 * (q * p + r) + v % 256;
    assert v == q * Pow256(k) + (r * 256 + v % 256) by {
      assert 256 * (q * p) == q * (256 * p);
    }
    assert r * 256 + v % 256 < Pow256(k);
    DivModUnique(v, Pow256(k), q, r * 256 + v % 256);
  }

  /** Fixed-width encodings of numbers that fit are injective. */
  lemma FromNatInjective(v: nat, w: nat, k: nat)
    requires v < Pow256(k) && w < Pow256(k)
    requires FromNat(v, k) == FromNat(w, k)
    ensures v == w
  {
    ToNatFromNat(v, k);
    ToNatFromNat(w, k);
    DivModUnique(v, Pow256(k), 0, v);
    DivModUnique(w, Pow256(k), 0, w);
  }

  lemma {:induction false} ToNatBound(b: Bytes)
    ensures ToNat(b) < Pow256(|b|)
  {
    if b != [] {
      ToNatBound(b[..|b| - 1]);
    }
  }

  lemma {:induction false} ToNatMinBytes(v: nat)
    ensures ToNat(MinBytes(v)) == v
  {
    if v > 0 {
      ToNatMinBytes(v / 256);
      var b := MinBytes(v);
      assert b[..|b| - 1] == MinBytes(v / 256);
    }
  }

  /** The number of bytes a number needs. */
  lemma {:induction false} MinBytesLength(v: nat, k: nat)
    ensures |MinBytes(v)| <= k <==> v < Pow256(k)
  {
    if v > 0 && k > 0 {
      MinBytesLength(v / 256, k - 1);
    }
  }

  lemma {:induction false} MinBytesNoLeadingZero(v: nat)
    ensures v > 0 ==> MinBytes(v) != [] && MinBytes(v)[0] != 0
  {
    if v >= 256 {
      MinBytesNoLeadingZero(v / 256);
    }
  }

  /** Byte by byte: cut off behind 32 bytes, or filled with zeros. */
  lemma Bytes32At(b: Bytes, i: nat)
    requires i < 32
    ensures Bytes32(b)[i] == if i < |b| then b[i] else 0
  {
  }

  /** Every zero appended multiplies by 256. */
  lemma {:induction false} ToNatPadded(b: Bytes, k: nat)
    ensures ToNat(b + Zeros(k)) == ToNat(b) * Pow256(k)
  {
    if k == 0 {
      assert b + Zeros(0) == b;
    } else {
      ToNatPadded(b, k - 1);
      var c := b + Zeros(k);
      assert c[..|c| - 1] == b + Zeros(k - 1) && c[|c| - 1] == 0;
      assert ToNat(c) == ToNat(b + Zeros(k - 1)) * 256;
      hide ToNat;
      TimesNextPower(ToNat(b), k);
    }
  }

  lemma TimesNextPower(n: nat, k: nat)
    requires k > 0
    ensures n * Pow256(k - 1) * 256 == n * Pow256(k)
  {
    var q := Pow256(k - 1);
    assert n * q * 256 == n * (256 * q);
  }

  const TWO248: nat := 0x1_00000000000000_0000000000000000_0000000000000000_0000000000000000
  const TWO253: nat := 0x20_00000000000000_0000000000000000_0000000000000000_0000000000000000

  lemma Pow256Values()
    ensures Pow256(8) == 0x1_0000_0000_0000_0000
    ensures Pow256(31) == TWO248
    ensures Pow256(32) == TWO256
    ensures TWO253 == 32 * TWO248
  {
    assert Pow256(4) == 0x1_0000_0000;
    assert Pow256(8) == 0x1_0000_0000_0000_0000;
    assert Pow256(12) == 0x1_0000_0000_0000_0000_0000_0000;
    assert Pow256(16) == 0x1_0000_0000_0000_0000_0000_0000_0000_0000;
    assert Pow256(20) == 0x1_0000_0000_0000_0000_0000_0000_0000_0000_0000_0000;
    assert Pow256(24) == 0x1_0000_0000_0000_0000_0000_0000_0000_0000_0000_0000_0000_0000;
    assert Pow256(28) == 0x1_0000_0000_0000_0000_0000_0000_0000_0000_0000_0000_0000_0000_0000_0000;
  }

  lemma DigestBound(d: Digest)
    ensures ToNat(d) < TWO256
  {
    hide Pow256;
    ToNatBound(d);
    Pow256Values();
  }

  /** Sending a number as its minimal bytes and reading it as a bytes32 gives the number back
      exactly when it is zero or fills all 32 bytes. */
  lemma MinBytesAsBytes32(v: nat)
    requires v < TWO256
    ensures ToNat(Bytes32(MinBytes(v))) == v <==> v == 0 || v >= TWO248
  {
    hide MinBytes, Pow256;
    Pow256Values();
    var b := MinBytes(v);
    MinBytesLength(v, 32);
    MinBytesLength(v, 31);
    ToNatMinBytes(v);
    if |b| == 32 {
      assert b[..32] == b;
    } else {
      hide Pow256, ToNat;
      ToNatPadded(b, 32 - |b|);
      PaddingChanges(v, 32 - |b|);
    }
  }

  lemma PaddingChanges(v: nat, k: nat)
    requires k > 0
    ensures v * Pow256(k) == v <==> v == 0
  {
    if v > 0 {
      assert Pow256(k) >= 256;
      MulNonNegative(v, Pow256(k) - 256);
    }
  }

  /** The first byte is worth 256 to the number of the others. */
  lemma {:induction false} ToNatHead(b: Bytes)
    requires b != []
    ensures ToNat(b) == b[0] * Pow256(|b| - 1) + ToNat(b[1..])
  {
    if |b| == 1 {
      assert b[..0] == [] && b[1..] == [];
    } else {
      var n := |b| - 1;
      ToNatHead(b[..n]);
      assert b[..n][1..] == b[1..][..n - 1] && b[1..][n - 1] == b[n];
      assert b[0] * Pow256(n - 1) * 256 == b[0] * Pow256(n);
    }
  }

  /** Clearing the three top bits of a digest reduces its number modulo 2^253. */
  lemma MaskTopBits(d: Digest)
    ensures ToNat([d[0] % 32] + d[1..]) == ToNat(d) % TWO253
  {
    hide ToNat, Pow256;
    var m := [d[0] % 32] + d[1..];
    ToNatHead(d);
    ToNatHead(m);
    assert m[1..] == d[1..];
    ToNatBound(d[1..]);
    Pow256Values();
    MaskArithmetic(d[0], ToNat(d[1..]), Pow256(31));
  }

  lemma MaskArithmetic(head: byte, rest: nat, p: nat)
    requires rest < p
    ensures head % 32 * p + rest == (head * p + rest) % (32 * p)
  {
    var q, r := head / 32, head % 32;
    assert head * p == q * (32 * p) + r * p;
    MulNonNegative(31 - r, p);
    DivModUnique(head * p + rest, 32 * p, q, r * p + rest);
  }
}
