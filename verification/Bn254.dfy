/** The constants of contracts/groth16/Groth16Verifier.sol, and what they stand for. */
module Bn254 {
  import opened Bytes
  import opened Modular
  import opened Squares
  import opened FieldArithmetic
  import opened PointCompression

  const P: nat := 0x30644e72e131a029b85045b68181585d97816a916871ca8d3c208c16d87cfd47
  const FRACTION_1_2_FP: nat := 0x183227397098d014dc2822db40c0ac2ecbc0b548b438e5469e10460b6c3e7ea4
  const FRACTION_27_82_FP: nat := 0x2b149d40ceb8aaae81be18991be06ac3b5b4c5e559dbefa33267e6dc24a138e5
  const FRACTION_3_82_FP: nat := 0x2fcd3ac2a640a154eb23960892a85a68f031ca0c8344b23a577dcf1052b9e775
  const EXP_INVERSE_FP: nat := 0x30644E72E131A029B85045B68181585D97816A916871CA8D3C208C16D87CFD45
  const EXP_SQRT_FP: nat := 0xC19139CB84C680A6E14116DA060561765E05AA45A1C72A34F082305B61F3F52

  /** The constants are the exponents and the half the field functions use; P has the shape the
      results need if it is prime; (9 + i) times the constant of the G2 equation is 3;
      and P is the polynomial of the BN family at the parameter of BN254. */
  lemma ConstantsFit()
    ensures EXP_INVERSE_FP == P - 2 && EXP_SQRT_FP == (P + 1) / 4 && FRACTION_1_2_FP == Half(P)
    ensures Prime(P) ==> CurveModulus(P)
    ensures var t: nat := 4965661367192848881; P == 36 * (t * t * t * t) + 36 * (t * t * t) + 24 * (t * t) + 6 * t + 1
    ensures Cong(9 * FRACTION_27_82_FP + FRACTION_3_82_FP, 3, P)
    ensures Cong(FRACTION_27_82_FP - 9 * FRACTION_3_82_FP, 0, P)
  {
  }

  /** The value of the G2 equation at zero is 3/(9 + i). */
  lemma ConstantNotSquare()
    requires !IsSquare2(FRACTION_27_82_FP, -(FRACTION_3_82_FP as int), P)
    ensures var (b0, b1) := Rhs2(0, 0, FRACTION_27_82_FP, FRACTION_3_82_FP, P); !IsSquare2(b0, b1, P)
  {
    var (b0, b1) := Rhs2(0, 0, FRACTION_27_82_FP, FRACTION_3_82_FP, P);
    Rhs2IsCube(0, 0, FRACTION_27_82_FP, FRACTION_3_82_FP, P);
    hide Rhs2;
    forall x0, x1
      ensures !IsRoot2(x0, x1, b0, b1, P)
    {
      assert !IsRoot2(x0, x1, FRACTION_27_82_FP, -(FRACTION_3_82_FP as int), P);
    }
  }

  /** A point of the contract's curve whose y has no real part. */
  const POINT_X0: nat := 0x18ad0d1b7aaa0988c6359565fd1cdac22a743fb7aee5cf26da14cad84619d1dd
  const POINT_X1: nat := 2
  const POINT_Y0: nat := 0
  const POINT_Y1: nat := 0x2813b58c9313fbe88d32d46330740f53432316b8b8ba6d3277c50e7300bf8f4e

  lemma ImaginaryYCongruences()
    ensures Cong(POINT_Y0 * POINT_Y0 - POINT_Y1 * POINT_Y1,
                 POINT_X0 * POINT_X0 * POINT_X0 - 3 * (POINT_X0 * POINT_X1 * POINT_X1) + FRACTION_27_82_FP, P)
    ensures Cong(2 * (POINT_Y0 * POINT_Y1),
                 3 * (POINT_X0 * POINT_X0 * POINT_X1) - POINT_X1 * POINT_X1 * POINT_X1 - FRACTION_3_82_FP, P)
  {
    hide Cong;
    var y, cube := POINT_Y0 * POINT_Y0 - POINT_Y1 * POINT_Y1,
                   POINT_X0 * POINT_X0 * POINT_X0 - 3 * (POINT_X0 * POINT_X1 * POINT_X1) + FRACTION_27_82_FP;
    CongOf(y, cube, (y - cube) / P, P);
    var z, part := 2 * (POINT_Y0 * POINT_Y1),
                   3 * (POINT_X0 * POINT_X0 * POINT_X1) - POINT_X1 * POINT_X1 * POINT_X1 - FRACTION_3_82_FP;
    CongOf(z, part, (z - part) / P, P);
  }

  /** The point is on the curve, and rejected: the comment that y0 may be zero fails for it. */
  lemma ImaginaryYRejected()
    requires Prime(P)
    ensures OnG2(POINT_X0, POINT_X1, POINT_Y0, POINT_Y1, FRACTION_27_82_FP, FRACTION_3_82_FP, P)
    ensures CompressG2(POINT_X0, POINT_X1, POINT_Y0, POINT_Y1, FRACTION_27_82_FP, FRACTION_3_82_FP, P).Revert?
  {
    ConstantsFit();
    CompressG2Accepts(POINT_X0, POINT_X1, POINT_Y0, POINT_Y1, FRACTION_27_82_FP, FRACTION_3_82_FP, P);
    hide CompressG2, Rhs2;
    ImaginaryYCongruences();
    Rhs2IsCube(POINT_X0, POINT_X1, FRACTION_27_82_FP, FRACTION_3_82_FP, P);
  }

  /** On G1 of the contract's curve, under the facts its comments state: every accepted point comes
      back from its code, and every accepted code from its point. */
  lemma CompressionIsBijectiveG1(x: nat, y: nat, c: nat)
    requires Prime(P) && !IsSquare(3, P) && NoZeroY1(P)
    requires c < TWO256
    ensures CompressG1(x, y, P).Ok? ==> DecompressG1(CompressG1(x, y, P).value, P) == Ok((x, y))
    ensures DecompressG1(c, P).Ok? ==> var (x, y) := DecompressG1(c, P).value; CompressG1(x, y, P) == Ok(c)
  {
    ConstantsFit();
    hide CompressG1, DecompressG1, Rhs1;
    DecompressCompressG1(x, y, P);
    CompressDecompressG1(c, P);
    DecompressedXReduced(c, P);
  }

  /** The same on G2. */
  lemma CompressionIsBijectiveG2(x0: nat, x1: nat, y0: nat, y1: nat, c0: nat, c1: nat)
    requires Prime(P) && !IsSquare2(FRACTION_27_82_FP, -(FRACTION_3_82_FP as int), P)
    requires c0 < TWO256
    ensures var f27, f3 := FRACTION_27_82_FP, FRACTION_3_82_FP;
            CompressG2(x0, x1, y0, y1, f27, f3, P).Ok? ==>
              var (c0, c1) := CompressG2(x0, x1, y0, y1, f27, f3, P).value;
              DecompressG2(c0, c1, f27, f3, P) == Ok((x0, x1, y0, y1))
    ensures var f27, f3 := FRACTION_27_82_FP, FRACTION_3_82_FP;
            DecompressG2(c0, c1, f27, f3, P).Ok? ==>
              var (x0, x1, y0, y1) := DecompressG2(c0, c1, f27, f3, P).value;
              CompressG2(x0, x1, y0, y1, f27, f3, P) == Ok((c0, c1))
  {
    ConstantsFit();
    ConstantNotSquare();
    hide CompressG2, DecompressG2, Rhs2;
    DecompressCompressG2(x0, x1, y0, y1, FRACTION_27_82_FP, FRACTION_3_82_FP, P);
    CompressDecompressG2(c0, c1, FRACTION_27_82_FP, FRACTION_3_82_FP, P);
  }
}
