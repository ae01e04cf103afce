/** Point compression of contracts/groth16/Groth16Verifier.sol: which points and codes are
    accepted, and that the two directions undo each other. */
module PointCompression {
  import opened Bytes
  import opened Arithmetic
  import opened Modular
  import opened Squares
  import opened FieldArithmetic
  import opened SquareRoots2

  const TWO254: nat := 0x40_00000000000000_0000000000000000_0000000000000000_0000000000000000

  /** A modulus small enough for two flag bits beside a coordinate. */
  ghost predicate CurveModulus(p: nat) {
    Modulus(p) && p < TWO254
  }

  // --------------------------------------------------------------------------------- the curve

  /** x^3 + 3 */
  function Rhs1(x: nat, p: nat): nat
    requires p > 0
  {
    AddMod(MulMod(MulMod(x, x, p), x, p), 3, p)
  }

  /** x^3 + 3 has no root: no point of the curve has y = 0. */
  ghost predicate NoZeroY1(p: nat)
    requires p > 0
  {
    forall x: nat :: x < p ==> Rhs1(x, p) != 0
  }

  /** x^3 + 3/(9 + i) for x = x0 + x1 i; `f27` and `f3` are the contract's fractions 27/82 and 3/82. */
  function Rhs2(x0: nat, x1: nat, f27: nat, f3: nat, p: nat): (nat, nat)
    requires p >= 3
  {
    var n3ab := MulMod(MulMod(x0, x1, p), p - 3, p);
    var a3 := MulMod(MulMod(x0, x0, p), x0, p);
    var b3 := MulMod(MulMod(x1, x1, p), x1, p);
    ( AddMod(f27, AddMod(a3, MulMod(n3ab, x1, p), p), p),
      Negate(AddMod(f3, AddMod(b3, MulMod(n3ab, x0, p), p), p), p) )
  }

  // ------------------------------------------------------------------------------------- G1

  /** A coordinate shifted left by one, with a flag in the freed bit. */
  function Code1(x: nat, sign: bool): nat {
    x * 2 % TWO256 + if sign then 1 else 0
  }

  function X1(c: nat): nat { c / 2 }

  predicate Sign(c: nat) { c % 2 == 1 }

  lemma Code1RoundTrip(x: nat, sign: bool)
    requires x < TWO254
    ensures X1(Code1(x, sign)) == x && Sign(Code1(x, sign)) == sign && Code1(x, sign) < TWO256
    ensures Code1(x, sign) == 0 <==> x == 0 && !sign
  {
    var s := if sign then 1 else 0;
    DivModUnique(x * 2, TWO256, 0, x * 2);
    DivModUnique(x * 2 + s, 2, x, s);
  }

  lemma Code1Complete(c: nat)
    requires c < TWO256 && X1(c) < TWO254
    ensures Code1(X1(c), Sign(c)) == c
  {
    var x := c / 2;
    assert c == x * 2 + c % 2;
    DivModUnique(x * 2, TWO256, 0, x * 2);
  }

  /** compress_g1: the x coordinate shifted left by one, the sign of y in the freed bit. */
  function CompressG1(x: nat, y: nat, p: nat): Outcome<nat>
    requires p > 0
  {
    if x >= p || y >= p then Revert(ProofInvalid)
    else if x == 0 && y == 0 then Ok(0)
    else
      var yPos :- Sqrt(Rhs1(x, p), p);
      if y == yPos then Ok(Code1(x, false))
      else if y == Negate(yPos, p) then Ok(Code1(x, true))
      else Revert(ProofInvalid)
  }

  /** decompress_g1 */
  function DecompressG1(c: nat, p: nat): Outcome<(nat, nat)>
    requires p > 0
  {
    if c == 0 then Ok((0, 0))
    else
      var x := X1(c);
      if x >= p then Revert(ProofInvalid)
      else
        var y :- Sqrt(Rhs1(x, p), p);
        Ok((x, if Sign(c) then Negate(y, p) else y))
  }

  lemma Rhs1Reduced(x: nat, p: nat)
    requires p > 0
    ensures Rhs1(x, p) < p && Cong(Rhs1(x, p), x * x * x + 3, p)
  {
    MulModCong(x, x, x, x, p);
    MulModCong(MulMod(x, x, p), x, x * x, x, p);
    AddModCong(MulMod(MulMod(x, x, p), x, p), 3, x * x * x, 3, p);
  }

  lemma NegateSquare(r: nat, p: nat)
    requires p > 0
    ensures Cong(Negate(r, p) * Negate(r, p), r * r, p)
  {
    var minus: int := -(r as int);
    NegateCong(r, r, p);
    CongMul(Negate(r, p), minus, Negate(r, p), minus, p);
    assert minus * minus == r * r;
  }

  /** Equal squares have equal or opposite roots. */
  lemma SquaresUpToSign(y: int, r: int, p: nat)
    requires Prime(p) && Cong(y * y, r * r, p)
    ensures Cong(y, r, p) || Cong(y, -r, p)
  {
    CongAdd(y * y, r * r, r * r, r * r, p);
    assert y * y - r * r == (y - r) * (y + r);
    NoZeroDivisors(y - r, y + r, p);
    if Cong(y - r, 0, p) {
      CongAdd(y - r, 0, r, r, p);
    } else {
      CongAdd(y + r, 0, r, r, p);
    }
  }

  lemma RootsUpToSign(y: nat, r: nat, p: nat)
    requires Modulus(p) && y < p && r < p && Cong(y * y, r * r, p)
    ensures y == r || y == Negate(r, p)
  {
    SquaresUpToSign(y, r, p);
    NegateCong(r, r, p);
    if Cong(y, r, p) {
      CongReduced(y, r, p);
    } else {
      CongReduced(y, Negate(r, p), p);
    }
  }

  /** The negative of a reduced nonzero residue is another one. */
  lemma NegateDiffers(r: nat, p: nat)
    requires Modulus(p) && 0 < r < p
    ensures Negate(r, p) == p - r && Negate(r, p) != r
  {
    DivModUnique(r, p, 0, r);
    DivModUnique(p - r, p, 0, p - r);
  }

  /** The two roots of a reduced square. */
  lemma TwoRoots(y: nat, r: nat, a: int, p: nat)
    requires Modulus(p) && y < p && r < p && IsRoot(r, a, p)
    ensures IsRoot(y, a, p) <==> y == r || y == Negate(r, p)
  {
    NegateSquare(r, p);
    if IsRoot(y, a, p) {
      RootsUpToSign(y, r, p);
    }
  }

  /** compress_g1 accepts exactly the reduced points of the curve and (0, 0). */
  lemma CompressG1Accepts(x: nat, y: nat, p: nat)
    requires CurveModulus(p)
    ensures CompressG1(x, y, p).Ok? <==>
            x < p && y < p && (x == y == 0 || Cong(y * y, x * x * x + 3, p))
  {
    Rhs1Reduced(x, p);
    SqrtExact(Rhs1(x, p), p);
    if x < p && y < p {
      if Sqrt(Rhs1(x, p), p).Ok? {
        TwoRoots(y, Sqrt(Rhs1(x, p), p).value, Rhs1(x, p), p);
      }
      if Cong(y * y, x * x * x + 3, p) {
        assert IsRoot(y, Rhs1(x, p), p);
      }
    }
  }

  /** decompress_g1 accepts exactly zero and the codes of reduced x coordinates of the curve. */
  lemma DecompressG1Accepts(c: nat, p: nat)
    requires CurveModulus(p)
    ensures DecompressG1(c, p).Ok? <==> c == 0 || (X1(c) < p && IsSquare(X1(c) * X1(c) * X1(c) + 3, p))
    ensures c != 0 && DecompressG1(c, p).Ok? ==>
              var (x, y) := DecompressG1(c, p).value;
              && x == c / 2 && y < p && Cong(y * y, x * x * x + 3, p)
              && (y != 0 ==> (c % 2 == 1 <==> !IsSquare(y, p)))
  {
    if c != 0 {
      var x := X1(c);
      var cube := x * x * x + 3;
      Rhs1Reduced(x, p);
      SqrtExact(Rhs1(x, p), p);
      SquareCongBoth(Rhs1(x, p), cube, p);
      hide Rhs1, Sqrt, IsSquare;
      if x < p && Sqrt(Rhs1(x, p), p).Ok? {
        var r := Sqrt(Rhs1(x, p), p).value;
        NegateSquare(r, p);
        NegateCong(r, r, p);
        NegatedIsNoSquare(r, p);
        NegateZero(p);
      }
    }
  }

  /** The negative of a nonzero square, reduced, is no square. */
  lemma NegatedIsNoSquare(r: nat, p: nat)
    requires Modulus(p) && r < p && IsSquare(r, p)
    ensures r != 0 ==> !IsSquare(Negate(r, p), p) && Negate(r, p) != 0
  {
    if r != 0 {
      CongZero(r, p);
      NegateDiffers(r, p);
      NegativeOfSquare(r, p);
      NegateCong(r, r, p);
      SquareCongBoth(Negate(r, p), -(r as int), p);
    }
  }

  /** The code of a point: twice x, and one more if y is no square. */
  lemma CompressG1Code(x: nat, y: nat, p: nat)
    requires CurveModulus(p) && (x != 0 || y != 0)
    ensures CompressG1(x, y, p).Ok? ==> CompressG1(x, y, p) == Ok(2 * x + if IsSquare(y, p) then 0 else 1)
  {
    Rhs1Reduced(x, p);
    SqrtExact(Rhs1(x, p), p);
    hide Rhs1, Sqrt, IsSquare;
    if x < p && Sqrt(Rhs1(x, p), p).Ok? {
      NegatedIsNoSquare(Sqrt(Rhs1(x, p), p).value, p);
      NegateZero(p);
      DivModUnique(x * 2, TWO256, 0, x * 2);
    }
  }

  /** Decompression undoes compression, if 3 is not a square (so no point has x = 0). */
  lemma DecompressCompressG1(x: nat, y: nat, p: nat)
    requires CurveModulus(p) && !IsSquare(3, p)
    ensures CompressG1(x, y, p).Ok? ==> DecompressG1(CompressG1(x, y, p).value, p) == Ok((x, y))
  {
    hide Rhs1, Sqrt, Code1, X1, Sign, Negate, IsSquare;
    if (x != 0 || y != 0) && CompressG1(x, y, p).Ok? {
      if x == 0 {
        Rhs1AtZero(p);
      }
      Code1RoundTrip(x, false);
      Code1RoundTrip(x, true);
    }
  }

  lemma Rhs1AtZero(p: nat)
    requires CurveModulus(p) && !IsSquare(3, p)
    ensures Sqrt(Rhs1(0, p), p).Revert?
  {
    Rhs1Reduced(0, p);
    SqrtExact(Rhs1(0, p), p);
    if IsSquare(Rhs1(0, p), p) {
      SquareCong(Rhs1(0, p), 3, p);
    }
  }

  /** Compression undoes decompression, except where y = 0 meets a sign bit: there the sign is
      lost. */
  lemma CompressDecompressG1(c: nat, p: nat)
    requires CurveModulus(p) && c < TWO256
    ensures DecompressG1(c, p).Ok? ==>
              var (x, y) := DecompressG1(c, p).value;
              CompressG1(x, y, p) == Ok(c) <==> !(Sign(c) && Rhs1(X1(c), p) == 0)
  {
    if c != 0 && DecompressG1(c, p).Ok? {
      var x := X1(c);
      Rhs1Reduced(x, p);
      SqrtExact(Rhs1(x, p), p);
      var r := Sqrt(Rhs1(x, p), p).value;
      NegateCong(r, r, p);
      CongZero(Rhs1(x, p), p);
      RootZero(r, Rhs1(x, p), p);
      NegateZero(p);
      if r != 0 {
        NegateDiffers(r, p);
      }
      Code1Complete(c);
      Code1RoundTrip(x, false);
      hide Rhs1, Sqrt, Code1, X1, Sign, Negate;
    }
  }

  lemma DecompressedXReduced(c: nat, p: nat)
    requires p > 0
    ensures c != 0 && DecompressG1(c, p).Ok? ==> X1(c) < p
  {
    hide Sqrt, Rhs1;
  }

  lemma NegateZero(p: nat)
    requires p > 0
    ensures Negate(0, p) == 0
  {
    DivModUnique(0, p, 0, 0);
    DivModUnique(p, p, 1, 0);
  }

  /** Only zero has the root zero. */
  lemma RootZero(r: nat, a: nat, p: nat)
    requires Modulus(p) && r < p && IsRoot(r, a, p)
    ensures r == 0 <==> Cong(a, 0, p)
  {
    CongZero(r, p);
    if Cong(a, 0, p) {
      NoZeroDivisors(r, r, p);
    }
  }

  // -------------------------------------------------------------------------------------- G2

  /** A coordinate shifted left by two, with two flags in the freed bits. */
  function Code2(x: nat, hint: bool, sign: bool): nat {
    x * 4 % TWO256 + (if hint then 2 else 0) + if sign then 1 else 0
  }

  function X2(c: nat): nat { c / 4 }

  predicate Hint(c: nat) { c / 2 % 2 == 1 }

  lemma Code2RoundTrip(x: nat, hint: bool, sign: bool)
    requires x < TWO254
    ensures var c := Code2(x, hint, sign); X2(c) == x && Hint(c) == hint && Sign(c) == sign && c < TWO256
    ensures Code2(x, hint, sign) == 0 <==> x == 0 && !hint && !sign
  {
    var h, s := if hint then 1 else 0, if sign then 1 else 0;
    DivModUnique(x * 4, TWO256, 0, x * 4);
    var c := Code2(x, hint, sign);
    assert c == x * 4 + 2 * h + s;
    DivModUnique(c, 4, x, 2 * h + s);
    DivModUnique(c, 2, 2 * x + h, s);
    DivModUnique(2 * x + h, 2, x, h);
  }

  lemma Code2Complete(c: nat)
    requires c < TWO256 && X2(c) < TWO254
    ensures Code2(X2(c), Hint(c), Sign(c)) == c
  {
    var x, r := c / 4, c % 4;
    assert c == x * 4 + r;
    DivModUnique(c, 2, 2 * x + r / 2, r % 2);
    DivModUnique(2 * x + r / 2, 2, x, r / 2);
    DivModUnique(x * 4, TWO256, 0, x * 4);
  }

  /** compress_g2: two flag bits beside x0, the hint and the sign. */
  function CompressG2(x0: nat, x1: nat, y0: nat, y1: nat, f27: nat, f3: nat, p: nat): Outcome<(nat, nat)>
    requires p >= 3
  {
    if x0 >= p || x1 >= p || y0 >= p || y1 >= p then Revert(ProofInvalid)
    else if x0 == 0 && x1 == 0 && y0 == 0 && y1 == 0 then Ok((0, 0))
    else
      var (a0, a1) := Rhs2(x0, x1, f27, f3, p);
      var hint :- CompressHint(a0, a1, p);
      var r :- Sqrt2(a0, a1, hint, p);
      if y0 == r.0 && y1 == r.1 then Ok((Code2(x0, hint, false), x1))
      else if y0 == Negate(r.0, p) && y1 == Negate(r.1, p) then Ok((Code2(x0, hint, true), x1))
      else Revert(ProofInvalid)
  }

  /** decompress_g2 */
  function DecompressG2(c0: nat, c1: nat, f27: nat, f3: nat, p: nat): Outcome<(nat, nat, nat, nat)>
    requires p >= 3
  {
    if c0 == 0 && c1 == 0 then Ok((0, 0, 0, 0))
    else
      var x0, x1 := X2(c0), c1;
      if x0 >= p || x1 >= p then Revert(ProofInvalid)
      else
        var (a0, a1) := Rhs2(x0, x1, f27, f3, p);
        var r :- Sqrt2(a0, a1, Hint(c0), p);
        Ok(if Sign(c0) then (x0, x1, Negate(r.0, p), Negate(r.1, p)) else (x0, x1, r.0, r.1))
  }

  lemma Rhs2Reduced(x0: nat, x1: nat, f27: nat, f3: nat, p: nat)
    requires p >= 3
    ensures Rhs2(x0, x1, f27, f3, p).0 < p && Rhs2(x0, x1, f27, f3, p).1 < p
  {
    var n3ab := MulMod(MulMod(x0, x1, p), p - 3, p);
    var b3 := MulMod(MulMod(x1, x1, p), x1, p);
    var s := AddMod(f3, AddMod(b3, MulMod(n3ab, x0, p), p), p);
    NegateCong(s, s, p);
  }

  /** Rhs2 is the curve equation: the cube of x0 + x1 i plus the constant f27 - f3 i. */
  lemma Rhs2IsCube(x0: nat, x1: nat, f27: nat, f3: nat, p: nat)
    requires p >= 3
    ensures Cong(Rhs2(x0, x1, f27, f3, p).0, x0 * x0 * x0 - 3 * (x0 * x1 * x1) + f27, p)
    ensures Cong(Rhs2(x0, x1, f27, f3, p).1, 3 * (x0 * x0 * x1) - x1 * x1 * x1 - f3, p)
  {
    hide Cong, MulMod, AddMod, Negate;
    var n3ab := MulMod(MulMod(x0, x1, p), p - 3, p);
    CubeCong(x0, p);
    CubeCong(x1, p);
    MinusThreeTimes(x0, x1, x1, p);
    MinusThreeTimes(x0, x1, x0, p);
    var _ := SumCong(f27, MulMod(MulMod(x0, x0, p), x0, p), MulMod(n3ab, x1, p), x0 * x0 * x0, -3 * (x0 * x1 * x1), p);
    var s := SumCong(f3, MulMod(MulMod(x1, x1, p), x1, p), MulMod(n3ab, x0, p), x1 * x1 * x1, -3 * (x0 * x1 * x0), p);
    NegateCong(s, x1 * x1 * x1 + -3 * (x0 * x1 * x0) + f3, p);
    assert x0 * x1 * x0 == x0 * x0 * x1;
  }

  lemma SumCong(f: nat, a: nat, b: nat, x: int, y: int, p: nat) returns (s: nat)
    requires p > 0 && Cong(a, x, p) && Cong(b, y, p)
    ensures s == AddMod(f, AddMod(a, b, p), p) && Cong(s, x + y + f, p)
  {
    hide Cong;
    s := AddMod(f, AddMod(a, b, p), p);
    CongReflexive(f, p);
    AddModCong(a, b, x, y, p);
    AddModCong(f, AddMod(a, b, p), f, x + y, p);
  }

  lemma MinusThreeTimes(x: nat, y: nat, z: nat, p: nat)
    requires p >= 3
    ensures Cong(MulMod(MulMod(MulMod(x, y, p), p - 3, p), z, p), -3 * (x * y * z), p)
  {
    hide Cong, MulMod;
    CongReflexive(x, p);
    CongReflexive(y, p);
    CongReflexive(z, p);
    MulModCong(x, y, x, y, p);
    CongOf(p - 3, -3, 1, p);
    MulModCong(MulMod(x, y, p), p - 3, x * y, -3, p);
    MulModCong(MulMod(MulMod(x, y, p), p - 3, p), z, x * y * -3, z, p);
    assert x * y * -3 * z == -3 * (x * y * z);
  }

  lemma CubeCong(x: nat, p: nat)
    requires p > 0
    ensures Cong(MulMod(MulMod(x, x, p), x, p), x * x * x, p)
  {
    MulModCong(x, x, x, x, p);
    MulModCong(MulMod(x, x, p), x, x * x, x, p);
  }

  /** Square roots in Fp2 are unique up to sign. */
  lemma TwoRoots2(x0: int, x1: int, y0: int, y1: int, a0: int, a1: int, p: nat)
    requires Modulus(p) && IsRoot2(x0, x1, a0, a1, p) && IsRoot2(y0, y1, a0, a1, p)
    ensures (Cong(y0, x0, p) && Cong(y1, x1, p)) || (Cong(y0, -x0, p) && Cong(y1, -x1, p))
  {
    // (y - x)(y + x) vanishes in Fp2, hence so does the product of the two norms.
    var d0, d1, s0, s1 := y0 - x0, y1 - x1, y0 + x0, y1 + x1;
    CongAdd(y0 * y0 - y1 * y1, a0, x0 * x0 - x1 * x1, a0, p);
    CongAdd(2 * (y0 * y1), a1, 2 * (x0 * x1), a1, p);
    DifferenceOfSquares(x0, x1, y0, y1);
    ProductOfNorms(d0, d1, s0, s1, p);
    NoZeroDivisors(d0 * d0 + d1 * d1, s0 * s0 + s1 * s1, p);
    if Cong(d0 * d0 + d1 * d1, 0, p) {
      NormZero(d0, d1, p);
      CongAdd(d0, 0, x0, x0, p);
      CongAdd(d1, 0, x1, x1, p);
    } else {
      NormZero(s0, s1, p);
      CongAdd(s0, 0, x0, x0, p);
      CongAdd(s1, 0, x1, x1, p);
      assert s0 - x0 == y0 && s1 - x1 == y1;
    }
  }

  lemma DifferenceOfSquares(x0: int, x1: int, y0: int, y1: int)
    ensures var d0, d1, s0, s1 := y0 - x0, y1 - x1, y0 + x0, y1 + x1;
            && d0 * s0 - d1 * s1 == (y0 * y0 - y1 * y1) - (x0 * x0 - x1 * x1)
            && d0 * s1 + d1 * s0 == 2 * (y0 * y1) - 2 * (x0 * x1)
  {
  }

  /** Norms multiply. */
  lemma ProductOfNorms(a: int, b: int, c: int, d: int, p: nat)
    requires p > 0 && Cong(a * c - b * d, 0, p) && Cong(a * d + b * c, 0, p)
    ensures Cong((a * a + b * b) * (c * c + d * d), 0, p)
  {
    CongMul(a * c - b * d, 0, a * c - b * d, 0, p);
    CongMul(a * d + b * c, 0, a * d + b * c, 0, p);
    CongAdd((a * c - b * d) * (a * c - b * d), 0, (a * d + b * c) * (a * d + b * c), 0, p);
    Brahmagupta(a, b, c, d);
  }

  lemma Brahmagupta(a: int, b: int, c: int, d: int)
    ensures (a * a + b * b) * (c * c + d * d)
         == (a * c - b * d) * (a * c - b * d) + (a * d + b * c) * (a * d + b * c)
  {
    SquareOfProduct(a, c);
    SquareOfProduct(a, d);
    SquareOfProduct(b, c);
    SquareOfProduct(b, d);
    ProductOfSums(a * a, b * b, c * c, d * d);
    CrossTerms(a, b, c, d);
    SquaresOfSums(a * c, b * d, a * d, b * c);
  }

  lemma SquareOfProduct(a: int, b: int)
    ensures (a * a) * (b * b) == (a * b) * (a * b)
  {
  }

  lemma ProductOfSums(a: int, b: int, c: int, d: int)
    ensures (a + b) * (c + d) == a * c + a * d + b * c + b * d
  {
  }

  lemma CrossTerms(a: int, b: int, c: int, d: int)
    ensures (a * c) * (b * d) == (a * d) * (b * c)
  {
  }

  lemma SquaresOfSums(x: int, y: int, z: int, w: int)
    requires x * y == z * w
    ensures (x - y) * (x - y) + (z + w) * (z + w) == x * x + y * y + z * z + w * w
  {
    assert (x - y) * (x - y) == x * x - 2 * (x * y) + y * y;
    assert (z + w) * (z + w) == z * z + 2 * (z * w) + w * w;
  }

  /** The curve equation of G2. */
  predicate OnG2(x0: nat, x1: nat, y0: nat, y1: nat, f27: nat, f3: nat, p: nat)
    requires p >= 3
  {
    var (a0, a1) := Rhs2(x0, x1, f27, f3, p);
    IsRoot2(y0, y1, a0, a1, p)
  }

  lemma NegatedRoot2(r0: nat, r1: nat, a0: int, a1: int, p: nat)
    requires p > 0 && IsRoot2(r0, r1, a0, a1, p)
    ensures IsRoot2(Negate(r0, p), Negate(r1, p), a0, a1, p)
  {
    NegateSquare(r0, p);
    NegateSquare(r1, p);
    CongAdd(Negate(r0, p) * Negate(r0, p), r0 * r0, Negate(r1, p) * Negate(r1, p), r1 * r1, p);
    NegateCong(r0, r0, p);
    NegateCong(r1, r1, p);
    var m0: int, m1: int := -(r0 as int), -(r1 as int);
    CongMul(Negate(r0, p), m0, Negate(r1, p), m1, p);
    CongMul(2, 2, Negate(r0, p) * Negate(r1, p), m0 * m1, p);
    assert m0 * m1 == r0 * r1;
  }

  /** Two reduced roots are equal or opposite. */
  lemma ReducedRoots2(y0: nat, y1: nat, r0: nat, r1: nat, a0: int, a1: int, p: nat)
    requires Modulus(p) && y0 < p && y1 < p && r0 < p && r1 < p
    requires IsRoot2(r0, r1, a0, a1, p)
    ensures IsRoot2(y0, y1, a0, a1, p) <==>
            (y0 == r0 && y1 == r1) || (y0 == Negate(r0, p) && y1 == Negate(r1, p))
  {
    NegatedRoot2(r0, r1, a0, a1, p);
    NegateCong(r0, r0, p);
    NegateCong(r1, r1, p);
    if IsRoot2(y0, y1, a0, a1, p) {
      TwoRoots2(r0, r1, y0, y1, a0, a1, p);
      if Cong(y0, r0, p) && Cong(y1, r1, p) {
        CongReduced(y0, r0, p);
        CongReduced(y1, r1, p);
      } else {
        CongReduced(y0, Negate(r0, p), p);
        CongReduced(y1, Negate(r1, p), p);
      }
    }
  }

  /** A root with a nonzero real part is one that sqrt_Fp2 finds up to sign. */
  lemma RootWithRealPartFound(y0: int, y1: int, a0: nat, a1: nat, p: nat)
    requires Modulus(p) && a0 < p && a1 < p && !Cong(y0, 0, p) && IsRoot2(y0, y1, a0, a1, p)
    ensures CompressHint(a0, a1, p).Ok?
    ensures Sqrt2(a0, a1, CompressHint(a0, a1, p).value, p).Ok?
  {
    NormOfSquare(y0, y1, a0, a1, p);
    SqrtExact(Norm(a0, a1, p), p);
    if Cong(a1, 0, p) {
      OneIsNotMinusOne(p);
      NoZeroDivisors(2, y0 * y1, p);
      NoZeroDivisors(y0, y1, p);
      CongMul(y1, 0, y1, 0, p);
      CongAdd(y0 * y0 - y1 * y1, a0, y1 * y1, 0, p);
      assert y0 * y0 - y1 * y1 + y1 * y1 == y0 * y0;
      assert IsRoot(y0, a0, p);
      if Cong(a0, 0, p) {
        NoZeroDivisors(y0, y0, p);
      }
    }
    Sqrt2Exact(a0, a1, CompressHint(a0, a1, p).value, p);
  }

  ghost predicate HasRootWithRealPart(a0: int, a1: int, p: nat)
    requires p > 0
  {
    exists y0, y1 :: IsRoot2(y0, y1, a0, a1, p) && !Cong(y0, 0, p)
  }

  /** decompress_g2 accepts exactly (0, 0) and the codes with reduced x coordinates, over which the
      curve has a point whose y has a nonzero real part, and with the hint that compression
      computes. What it returns is such a point. */
  lemma DecompressG2Accepts(c0: nat, c1: nat, f27: nat, f3: nat, p: nat)
    requires CurveModulus(p)
    ensures var (a0, a1) := Rhs2(X2(c0), c1, f27, f3, p);
            DecompressG2(c0, c1, f27, f3, p).Ok? <==>
            || c0 == c1 == 0
            || (X2(c0) < p && c1 < p && HasRootWithRealPart(a0, a1, p) && CompressHint(a0, a1, p) == Ok(Hint(c0)))
    ensures (c0 != 0 || c1 != 0) && DecompressG2(c0, c1, f27, f3, p).Ok? ==>
              var (x0, x1, y0, y1) := DecompressG2(c0, c1, f27, f3, p).value;
              && x0 == c0 / 4 && x1 == c1 && OnG2(x0, x1, y0, y1, f27, f3, p) && y0 != 0
              && (c0 / 2 % 2 == 1 <==> !IsSquare(y0 * y0 + y1 * y1, p))
              && (c0 % 2 == 1 <==> !IsSquare(y0, p))
  {
    var (a0, a1) := Rhs2(X2(c0), c1, f27, f3, p);
    Rhs2Reduced(X2(c0), c1, f27, f3, p);
    Sqrt2Exact(a0, a1, Hint(c0), p);
    hide Rhs2, Sqrt2, CompressHint, Negate, IsSquare, Cong, IsRoot2;
    if HasRootWithRealPart(a0, a1, p) {
      var y0, y1 :| IsRoot2(y0, y1, a0, a1, p) && !Cong(y0, 0, p);
      RootWithRealPartFound(y0, y1, a0, a1, p);
    }
    if Sqrt2(a0, a1, Hint(c0), p).Ok? {
      var (r0, r1) := Sqrt2(a0, a1, Hint(c0), p).value;
      SignedRoot(r0, r1, a0, a1, Sign(c0), p);
    }
  }

  /** The root that is returned, with or without the sign. */
  lemma SignedRoot(r0: nat, r1: nat, a0: nat, a1: nat, sign: bool, p: nat)
    requires Modulus(p) && r0 < p && r1 < p && IsRoot2(r0, r1, a0, a1, p) && !Cong(r0, 0, p) && IsSquare(r0, p)
    ensures var y0, y1 := if sign then Negate(r0, p) else r0, if sign then Negate(r1, p) else r1;
            && IsRoot2(y0, y1, a0, a1, p) && y0 != 0
            && (IsSquare(y0 * y0 + y1 * y1, p) <==> IsSquare(r0 * r0 + r1 * r1, p))
            && (sign <==> !IsSquare(y0, p))
  {
    hide IsSquare, Cong, IsRoot2, Negate;
    CongZero(r0, p);
    NegatedRoot2(r0, r1, a0, a1, p);
    SignOfRoot(if sign then Negate(r0, p) else r0, if sign then Negate(r1, p) else r1, r0, r1, sign, p);
    NegatedIsNoSquare(r0, p);
  }

  lemma NegatedNorm(r0: nat, r1: nat, p: nat)
    requires Modulus(p)
    ensures var n0, n1 := Negate(r0, p), Negate(r1, p);
            IsSquare(n0 * n0 + n1 * n1, p) <==> IsSquare(r0 * r0 + r1 * r1, p)
  {
    hide IsSquare;
    var n0, n1 := Negate(r0, p), Negate(r1, p);
    NegateSquare(r0, p);
    NegateSquare(r1, p);
    CongAdd(n0 * n0, r0 * r0, n1 * n1, r1 * r1, p);
    SquareCongBoth(n0 * n0 + n1 * n1, r0 * r0 + r1 * r1, p);
  }

  /** The code of a point: four times the real part of x, two more if the norm of y is no square, one
      more if the real part of y is no square; and the imaginary part of x. */
  lemma CompressG2Code(x0: nat, x1: nat, y0: nat, y1: nat, f27: nat, f3: nat, p: nat)
    requires CurveModulus(p) && (x0 != 0 || x1 != 0 || y0 != 0 || y1 != 0)
    ensures CompressG2(x0, x1, y0, y1, f27, f3, p).Ok? ==>
              CompressG2(x0, x1, y0, y1, f27, f3, p) ==
              Ok((4 * x0 + (if IsSquare(y0 * y0 + y1 * y1, p) then 0 else 2) + (if IsSquare(y0, p) then 0 else 1), x1))
  {
    var (a0, a1) := Rhs2(x0, x1, f27, f3, p);
    hide Rhs2, Sqrt2, CompressHint, Negate, IsSquare, Cong, IsRoot2, Code2;
    if CompressG2(x0, x1, y0, y1, f27, f3, p).Ok? {
      var hint := CompressHint(a0, a1, p).value;
      Sqrt2Exact(a0, a1, hint, p);
      var (r0, r1) := Sqrt2(a0, a1, hint, p).value;
      CongZero(r0, p);
      var negated := !(y0 == r0 && y1 == r1);
      SignOfRoot(y0, y1, r0, r1, negated, p);
      Code2Value(x0, hint, negated);
    }
  }

  lemma Code2Value(x: nat, hint: bool, sign: bool)
    requires x < TWO254
    ensures Code2(x, hint, sign) == 4 * x + (if hint then 2 else 0) + if sign then 1 else 0
  {
    DivModUnique(x * 4, TWO256, 0, x * 4);
  }

  /** A root and its negative have the same norm; only the real part of the first is a square. */
  lemma SignOfRoot(y0: nat, y1: nat, r0: nat, r1: nat, negated: bool, p: nat)
    requires Modulus(p) && 0 < r0 < p && IsSquare(r0, p)
    requires if negated then y0 == Negate(r0, p) && y1 == Negate(r1, p) else y0 == r0 && y1 == r1
    ensures IsSquare(y0 * y0 + y1 * y1, p) <==> IsSquare(r0 * r0 + r1 * r1, p)
    ensures negated <==> !IsSquare(y0, p)
  {
    hide IsSquare, Negate;
    NegatedIsNoSquare(r0, p);
    NegatedNorm(r0, r1, p);
  }

  /** compress_g2 accepts exactly (0, 0, 0, 0) and the reduced points of the curve whose y has a
      nonzero real part. */
  lemma CompressG2Accepts(x0: nat, x1: nat, y0: nat, y1: nat, f27: nat, f3: nat, p: nat)
    requires CurveModulus(p)
    ensures CompressG2(x0, x1, y0, y1, f27, f3, p).Ok? <==>
            && x0 < p && x1 < p && y0 < p && y1 < p
            && (x0 == x1 == y0 == y1 == 0 || (OnG2(x0, x1, y0, y1, f27, f3, p) && y0 != 0))
  {
    var (a0, a1) := Rhs2(x0, x1, f27, f3, p);
    Rhs2Reduced(x0, x1, f27, f3, p);
    hide Rhs2, Sqrt2, CompressHint, Code2;
    if x0 < p && x1 < p && y0 < p && y1 < p {
      CongZero(y0, p);
      if OnG2(x0, x1, y0, y1, f27, f3, p) && y0 != 0 {
        RootWithRealPartFound(y0, y1, a0, a1, p);
      }
      if CompressHint(a0, a1, p).Ok? {
        var hint := CompressHint(a0, a1, p).value;
        Sqrt2Exact(a0, a1, hint, p);
        if Sqrt2(a0, a1, hint, p).Ok? {
          var (r0, r1) := Sqrt2(a0, a1, hint, p).value;
          ReducedRoots2(y0, y1, r0, r1, a0, a1, p);
          CongZero(r0, p);
          NegateDiffers(r0, p);
        }
      }
    }
  }

  /** Decompression undoes compression, if 3/(9 + i) is not a square (so no point has x = 0). */
  lemma DecompressCompressG2(x0: nat, x1: nat, y0: nat, y1: nat, f27: nat, f3: nat, p: nat)
    requires CurveModulus(p)
    requires var (b0, b1) := Rhs2(0, 0, f27, f3, p); !IsSquare2(b0, b1, p)
    ensures CompressG2(x0, x1, y0, y1, f27, f3, p).Ok? ==>
              var (c0, c1) := CompressG2(x0, x1, y0, y1, f27, f3, p).value;
              DecompressG2(c0, c1, f27, f3, p) == Ok((x0, x1, y0, y1))
  {
    hide IsSquare2, Rhs2, Sqrt2, CompressHint, Code2, X2, Sign, Hint, Negate;
    if CompressG2(x0, x1, y0, y1, f27, f3, p).Ok? && (x0 != 0 || x1 != 0 || y0 != 0 || y1 != 0) {
      var (a0, a1) := Rhs2(x0, x1, f27, f3, p);
      var hint := CompressHint(a0, a1, p).value;
      if x0 == 0 && x1 == 0 {
        NoRootNotFound(a0, a1, hint, p);
      }
      Code2RoundTrip(x0, hint, false);
      Code2RoundTrip(x0, hint, true);
    }
  }

  lemma NoRootNotFound(a0: nat, a1: nat, hint: bool, p: nat)
    requires Modulus(p) && !IsSquare2(a0, a1, p)
    ensures Sqrt2(a0, a1, hint, p).Revert?
  {
    Sqrt2Exact(a0, a1, hint, p);
  }

  /** Compression undoes decompression, on every accepted code. */
  lemma CompressDecompressG2(c0: nat, c1: nat, f27: nat, f3: nat, p: nat)
    requires CurveModulus(p) && c0 < TWO256
    ensures DecompressG2(c0, c1, f27, f3, p).Ok? ==>
              var (x0, x1, y0, y1) := DecompressG2(c0, c1, f27, f3, p).value;
              CompressG2(x0, x1, y0, y1, f27, f3, p) == Ok((c0, c1))
  {
    if (c0 != 0 || c1 != 0) && DecompressG2(c0, c1, f27, f3, p).Ok? {
      var (a0, a1) := Rhs2(X2(c0), c1, f27, f3, p);
      Sqrt2Exact(a0, a1, Hint(c0), p);
      var (r0, r1) := Sqrt2(a0, a1, Hint(c0), p).value;
      CongZero(r0, p);
      NegateDiffers(r0, p);
      NegateCong(r1, r1, p);
      Code2Complete(c0);
      hide Rhs2, Sqrt2, CompressHint, Code2, X2, Sign, Hint, Negate;
    }
  }
}
