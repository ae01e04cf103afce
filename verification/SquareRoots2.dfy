/** When sqrt_Fp2 of contracts/groth16/Groth16Verifier.sol finds a root, and which hint it needs. */
module SquareRoots2 {
  import opened Bytes
  import opened Arithmetic
  import opened Modular
  import opened Squares
  import opened FieldArithmetic

  /** a0^2 + a1^2 */
  function Norm(a0: nat, a1: nat, p: nat): nat
    requires p > 0
  {
    AddMod(MulMod(a0, a0, p), MulMod(a1, a1, p), p)
  }

  /** Half of a0 + d */
  function HalfSum(a0: nat, d: nat, p: nat): nat
    requires p > 0
  {
    MulMod(AddMod(a0, d, p), Half(p), p)
  }

  /** The hint compress_g2 computes. */
  function CompressHint(a0: nat, a1: nat, p: nat): Outcome<bool>
    requires p > 0
  {
    var d :- Sqrt(Norm(a0, a1, p), p);
    Ok(!IsSquareFp(HalfSum(a0, d, p), p))
  }

  lemma NormCong(a0: nat, a1: nat, p: nat)
    requires p > 0
    ensures Cong(Norm(a0, a1, p), a0 * a0 + a1 * a1, p) && Norm(a0, a1, p) < p
  {
    MulModCong(a0, a0, a0, a0, p);
    MulModCong(a1, a1, a1, a1, p);
    AddModCong(MulMod(a0, a0, p), MulMod(a1, a1, p), a0 * a0, a1 * a1, p);
  }

  lemma HalfSumCong(a0: nat, d: nat, e: int, p: nat)
    requires p > 0 && p % 2 == 1 && Cong(d, e, p)
    ensures HalfSum(a0, d, p) < p && Cong(HalfSum(a0, d, p), (a0 + e) * Half(p), p)
    ensures Cong(2 * HalfSum(a0, d, p), a0 + e, p)
  {
    AddModCong(a0, d, a0, e, p);
    MulModCong(AddMod(a0, d, p), Half(p), a0 + e, Half(p), p);
    CongMul(2, 2, HalfSum(a0, d, p), (a0 + e) * Half(p), p);
    HalfDoubles(a0 + e, p);
  }

  /** The root of the norm the hint selects: a residue and its sign. */
  function Selected(root: nat, hint: bool, p: nat): nat
    requires p > 0
  {
    if hint then Negate(root, p) else root
  }

  function Signed(a: int, negative: bool): int {
    if negative then -a else a
  }

  lemma SelectedRoot(root: nat, hint: bool, n: int, p: nat)
    requires p > 0 && IsRoot(root, n, p)
    ensures Cong(Selected(root, hint, p), Signed(root, hint), p)
    ensures Cong(Signed(root, hint) * Signed(root, hint), n, p)
  {
    NegateCong(root, root, p);
    assert Signed(root, hint) * Signed(root, hint) == root * root;
  }

  /** A square norm has a root, found by sqrt_Fp. */
  lemma NormRoot(a0: nat, a1: nat, p: nat)
    requires Modulus(p) && IsSquare(Norm(a0, a1, p), p)
    ensures Sqrt(Norm(a0, a1, p), p).Ok?
    ensures IsRoot(Sqrt(Norm(a0, a1, p), p).value, a0 * a0 + a1 * a1, p)
  {
    NormCong(a0, a1, p);
    SqrtExact(Norm(a0, a1, p), p);
  }

  lemma NonzeroSquareHasNonzeroRoot(x: int, u: int, p: nat)
    requires Modulus(p) && IsRoot(x, u, p)
    ensures Cong(2 * x, 0, p) <==> Cong(u, 0, p)
  {
    OneIsNotMinusOne(p);
    if Cong(u, 0, p) {
      NoZeroDivisors(x, x, p);
      CongMul(2, 2, x, 0, p);
    }
    if Cong(2 * x, 0, p) {
      NoZeroDivisors(2, x, p);
      CongMul(x, 0, x, 0, p);
    }
  }

  /** The second coordinate is right by construction. */
  lemma SecondCoordinate(x0: nat, a1: nat, p: nat)
    requires Modulus(p) && Invert(MulMod(x0, 2, p), p).Ok?
    ensures var x1 := MulMod(a1, Invert(MulMod(x0, 2, p), p).value, p);
            x1 < p && Cong(2 * (x0 * x1), a1, p)
  {
    var y := Invert(MulMod(x0, 2, p), p).value;
    InvertExact(MulMod(x0, 2, p), p);
    hide Cong, MulMod, Invert;
    InverseOfDouble(x0, y, p);
    CongReflexive(a1, p);
    CongReflexive(y, p);
    MulModCong(a1, y, a1, y, p);
    TwiceTheProduct(x0, y, a1, MulMod(a1, y, p), p);
  }

  lemma TwiceTheProduct(x: int, y: int, a: int, z: int, p: nat)
    requires p > 0 && Cong(x * 2 * y, 1, p) && Cong(z, a * y, p)
    ensures Cong(2 * (x * z), a, p)
  {
    hide Cong;
    CongReflexive(a, p);
    CongReflexive(2 * x, p);
    CongMul(2 * x, 2 * x, z, a * y, p);
    CongMul(x * 2 * y, 1, a, a, p);
    RegroupDouble(x, y, a);
    assert 2 * x * z == 2 * (x * z);
    CongTransitive(2 * (x * z), x * 2 * y * a, a, p);
  }

  lemma RegroupDouble(x: int, y: int, a: int)
    ensures 2 * x * (a * y) == x * 2 * y * a
  {
    assert x * (a * y) == x * y * a;
  }

  lemma InverseOfDouble(x: nat, y: nat, p: nat)
    requires p > 0 && Cong(MulMod(x, 2, p) * y, 1, p)
    ensures Cong(x * 2 * y, 1, p)
  {
    MulModCong(x, 2, x, 2, p);
    CongMul(MulMod(x, 2, p), x * 2, y, y, p);
  }

  /** From the selected root on: a root is found exactly on reduced input for which half of a0
      plus the selected root is a nonzero square. */
  lemma Sqrt2FromRoot(a0: nat, a1: nat, d: nat, e: int, p: nat)
    requires Modulus(p) && Cong(d, e, p) && Cong(e * e, a0 * a0 + a1 * a1, p)
    ensures var u := HalfSum(a0, d, p);
            Sqrt2Tail(a0, a1, u, p).Ok? <==> a0 < p && a1 < p && IsSquare(u, p) && !Cong(u, 0, p)
    ensures var u := HalfSum(a0, d, p);
            Sqrt2Tail(a0, a1, u, p).Ok? ==>
              var (x0, x1) := Sqrt2Tail(a0, a1, u, p).value;
              && x0 < p && x1 < p && IsRoot2(x0, x1, a0, a1, p) && !Cong(x0, 0, p)
              && IsSquare(x0, p) && IsRoot(x0, u, p)
  {
    HalfSumCong(a0, d, e, p);
    var u := HalfSum(a0, d, p);
    hide HalfSum, Exp;
    SqrtExact(u, p);
    if IsSquare(u, p) {
      var x0 := Sqrt(u, p).value;
      NonzeroSquareHasNonzeroRoot(x0, u, p);
      MulModCong(x0, 2, x0, 2, p);
      InvertExact(MulMod(x0, 2, p), p);
      if !Cong(u, 0, p) {
        SecondCoordinate(x0, a1, p);
        var x1 := MulMod(a1, Invert(MulMod(x0, 2, p), p).value, p);
        RootFromHalf(a0, a1, e, u, x0, x1, p);
        RootTest(x0, x1, a0, a1, p);
        if Cong(x0, 0, p) {
          CongMul(2, 2, x0, 0, p);
        }
      }
    }
  }

  /** One hint: sqrt_Fp2 succeeds exactly on reduced input whose norm is a square and for which
      the selected half is a nonzero square; then it returns a reduced root. */
  lemma Sqrt2Steps(a0: nat, a1: nat, hint: bool, p: nat)
    requires Modulus(p) && IsSquare(Norm(a0, a1, p), p)
    ensures Sqrt(Norm(a0, a1, p), p).Ok?
    ensures var u := HalfSum(a0, Selected(Sqrt(Norm(a0, a1, p), p).value, hint, p), p);
            Sqrt2(a0, a1, hint, p).Ok? <==> a0 < p && a1 < p && IsSquare(u, p) && !Cong(u, 0, p)
    ensures Sqrt2(a0, a1, hint, p).Ok? ==>
              var (x0, x1) := Sqrt2(a0, a1, hint, p).value;
              && x0 < p && x1 < p && IsRoot2(x0, x1, a0, a1, p) && !Cong(x0, 0, p)
              && IsSquare(x0, p)
              && IsRoot(x0, HalfSum(a0, Selected(Sqrt(Norm(a0, a1, p), p).value, hint, p), p), p)
  {
    NormRoot(a0, a1, p);
    var root := Sqrt(Norm(a0, a1, p), p).value;
    SelectedRoot(root, hint, a0 * a0 + a1 * a1, p);
    Sqrt2FromRoot(a0, a1, Selected(root, hint, p), Signed(root, hint), p);
  }

  lemma NormNotSquare(a0: nat, a1: nat, hint: bool, p: nat)
    requires Modulus(p) && !IsSquare(Norm(a0, a1, p), p)
    ensures Sqrt2(a0, a1, hint, p).Revert? && CompressHint(a0, a1, p).Revert?
  {
    SqrtExact(Norm(a0, a1, p), p);
  }

  lemma HalfNonzero(a: int, p: nat)
    requires Modulus(p) && !Cong(a, 0, p)
    ensures !Cong(a * Half(p), 0, p)
  {
    if Cong(a * Half(p), 0, p) {
      HalfDoubles(a, p);
      CongMul(2, 2, a * Half(p), 0, p);
    }
  }

  /** With a nonzero imaginary part and a square norm, the hint compress_g2 computes is the only
      one that works. */
  lemma HintWhenImaginary(a0: nat, a1: nat, hint: bool, p: nat)
    requires Modulus(p) && IsSquare(Norm(a0, a1, p), p) && !Cong(a1, 0, p)
    ensures CompressHint(a0, a1, p).Ok?
    ensures Sqrt2(a0, a1, hint, p).Ok? <==> a0 < p && a1 < p && hint == CompressHint(a0, a1, p).value
  {
    hide IsSquare, Cong, Norm, Sqrt2, Sqrt, IsSquareFp, Negate, HalfSum;
    Sqrt2Steps(a0, a1, hint, p);
    NormRoot(a0, a1, p);
    var root := Sqrt(Norm(a0, a1, p), p).value;
    ImaginaryHalves(a0, a1, root, p);
    SqrtExact(HalfSum(a0, root, p), p);
  }

  /** Of the two halves exactly one is a square, and neither is zero. */
  lemma ImaginaryHalves(a0: nat, a1: nat, root: nat, p: nat)
    requires Modulus(p) && !Cong(a1, 0, p) && IsRoot(root, a0 * a0 + a1 * a1, p)
    ensures var u, v := HalfSum(a0, root, p), HalfSum(a0, Negate(root, p), p);
            && u < p && v < p && !Cong(u, 0, p) && !Cong(v, 0, p)
            && (IsSquare(u, p) <==> !IsSquare(v, p))
  {
    SelectedRoot(root, false, a0 * a0 + a1 * a1, p);
    SelectedRoot(root, true, a0 * a0 + a1 * a1, p);
    var e, f := Signed(root, false), Signed(root, true);
    assert f == -e;
    hide IsSquare, Cong, HalfSum, Half, Signed, Negate, Modulus;
    var u, v := HalfSum(a0, root, p), HalfSum(a0, Negate(root, p), p);
    HalfSumCong(a0, root, e, p);
    HalfSumCong(a0, Negate(root, p), f, p);
    HalvesMultiply(a0, a1, e, u, v, p);
    HalfNonzero(a1, p);
    ExactlyOneSquare(u, v, a1 * Half(p), p);
  }

  lemma HalvesMultiply(a0: int, a1: int, e: int, u: int, v: int, p: nat)
    requires Modulus(p) && Cong(e * e, a0 * a0 + a1 * a1, p)
    requires Cong(u, (a0 + e) * Half(p), p) && Cong(v, (a0 + -e) * Half(p), p)
    ensures Cong(u * v, -((a1 * Half(p)) * (a1 * Half(p))), p)
  {
    hide Cong, Half;
    var h := Half(p);
    var x, y, z := (a0 + e) * h, (a0 - e) * h, a1 * h;
    assert a0 + -e == a0 - e;
    HalvesProduct(a0, a1, e, p);
    CongMul(u, x, v, y, p);
    CongTransitive(u * v, x * y, -(z * z), p);
  }

  /** The root sqrt_Fp takes of a square a^2 is a or -a, whichever is itself a square. */
  lemma PrincipalRoot(a: nat, n: nat, p: nat)
    requires Modulus(p) && n < p && Cong(n, a * a, p)
    ensures Sqrt(n, p).Ok?
    ensures Cong(Sqrt(n, p).value, Signed(a, !IsSquare(a, p)), p)
  {
    assert IsRoot(a, n, p);
    SqrtExact(n, p);
    var e := (p + 1) / 4;
    PowCong(n, a * a, e, p);
    PowOfProduct(a, a, e);
    CandidateSquared(a, p);
    assert Cong(Sqrt(n, p).value, a * Chi(a, p), p);
    if !IsSquare(a, p) {
      ChiOfNonSquare(a, p);
      CongMul(a, a, Chi(a, p), -1, p);
    } else if Cong(a, 0, p) {
      CongMul(a, 0, Chi(a, p), Chi(a, p), p);
    } else {
      ChiOfSquare(a, p);
      CongMul(a, a, Chi(a, p), 1, p);
    }
  }

  /** Without an imaginary part only a nonzero square has its root found, without the hint. */
  lemma HintWhenReal(a0: nat, a1: nat, hint: bool, p: nat)
    requires Modulus(p) && Cong(a1, 0, p)
    ensures IsSquare(Norm(a0, a1, p), p) && CompressHint(a0, a1, p) == Ok(false)
    ensures Sqrt2(a0, a1, hint, p).Ok? <==>
            a0 < p && a1 < p && !hint && IsSquare(a0, p) && !Cong(a0, 0, p)
  {
    NormCong(a0, a1, p);
    CongMul(a1, 0, a1, 0, p);
    CongAdd(a0 * a0, a0 * a0, a1 * a1, 0, p);
    var n := Norm(a0, a1, p);
    assert IsRoot(a0, n, p);
    PrincipalRoot(a0, n, p);
    var root := Sqrt(n, p).value;
    RealHalf(a0, root, false, p);
    RealHalf(a0, root, true, p);
    Sqrt2Steps(a0, a1, hint, p);
    SqrtExact(HalfSum(a0, root, p), p);
  }

  lemma SameHalf(a0: nat, d: nat, p: nat)
    requires Modulus(p) && Cong(d, a0, p)
    ensures var u := HalfSum(a0, d, p); u < p && Cong(u, a0, p) && (IsSquare(u, p) <==> IsSquare(a0, p))
  {
    HalfSumCong(a0, d, a0, p);
    var u := HalfSum(a0, d, p);
    assert 2 * u - 2 * a0 == 2 * (u - a0);
    OneIsNotMinusOne(p);
    Cancel(2, u, a0, p);
    if IsSquare(a0, p) {
      SquareCong(a0, u, p);
    }
    if IsSquare(u, p) {
      SquareCong(u, a0, p);
    }
  }

  lemma OppositeHalf(a0: nat, d: nat, p: nat)
    requires Modulus(p) && Cong(d, Signed(a0, true), p)
    ensures var u := HalfSum(a0, d, p); u < p && Cong(u, 0, p) && IsSquare(u, p)
  {
    HalfSumCong(a0, d, Signed(a0, true), p);
    assert (a0 + Signed(a0, true)) * Half(p) == 0;
    ZeroIsSquare(HalfSum(a0, d, p), p);
  }

  /** Half of a0 plus or minus the principal root of a0^2 is a0 or zero. */
  lemma RealHalf(a0: nat, root: nat, hint: bool, p: nat)
    requires Modulus(p)
    requires Cong(root, Signed(a0, !IsSquare(a0, p)), p)
    ensures var u := HalfSum(a0, Selected(root, hint, p), p);
            && u < p
            && Cong(u, if IsSquare(a0, p) == !hint then a0 else 0, p)
            && (IsSquare(u, p) <==> (IsSquare(a0, p) == !hint ==> IsSquare(a0, p)))
  {
    hide IsSquare, HalfSum, Cong;
    NegateCong(root, Signed(a0, !IsSquare(a0, p)), p);
    if IsSquare(a0, p) == !hint {
      SameHalf(a0, Selected(root, hint, p), p);
    } else {
      OppositeHalf(a0, Selected(root, hint, p), p);
    }
  }

  /** The hint says whether the norm of the root that is found is a square. */
  lemma HintTellsNorm(a0: nat, a1: nat, hint: bool, p: nat)
    requires Modulus(p) && IsSquare(Norm(a0, a1, p), p) && Sqrt2(a0, a1, hint, p).Ok?
    ensures var (x0, x1) := Sqrt2(a0, a1, hint, p).value;
            hint <==> !IsSquare(x0 * x0 + x1 * x1, p)
  {
    Sqrt2Steps(a0, a1, hint, p);
    NormRoot(a0, a1, p);
    SqrtExact(Norm(a0, a1, p), p);
    var (x0, x1) := Sqrt2(a0, a1, hint, p).value;
    var root := Sqrt(Norm(a0, a1, p), p).value;
    var e := Signed(root, hint);
    SelectedRoot(root, hint, a0 * a0 + a1 * a1, p);
    HalfSumCong(a0, Selected(root, hint, p), e, p);
    NormOfRoot(x0, x1, HalfSum(a0, Selected(root, hint, p), p), a0, e, p);
    SignTellsSquare(root, hint, x0, x1, p);
  }

  /** x0^2 + x1^2 = 2 x0^2 - (x0^2 - x1^2) */
  lemma NormOfRoot(x0: int, x1: int, u: int, a0: int, e: int, p: nat)
    requires p > 0 && Cong(x0 * x0, u, p) && Cong(2 * u, a0 + e, p) && Cong(x0 * x0 - x1 * x1, a0, p)
    ensures Cong(x0 * x0 + x1 * x1, e, p)
  {
    hide Cong;
    var s, t := x0 * x0, x1 * x1;
    CongReflexive(2, p);
    CongMul(2, 2, s, u, p);
    CongTransitive(2 * s, 2 * u, a0 + e, p);
    CongAdd(2 * s, a0 + e, s - t, a0, p);
  }

  lemma SignTellsSquare(root: nat, negative: bool, x0: int, x1: int, p: nat)
    requires Modulus(p) && IsSquare(root, p) && !Cong(x0, 0, p)
    requires Cong(x0 * x0 + x1 * x1, Signed(root, negative), p)
    ensures negative <==> !IsSquare(x0 * x0 + x1 * x1, p)
  {
    var n := x0 * x0 + x1 * x1;
    if Cong(n, 0, p) {
      NormZero(x0, x1, p);
    }
    SquareCongBoth(n, Signed(root, negative), p);
    if negative {
      if Cong(root, 0, p) {
        CongAdd(0, 0, root, 0, p);
      }
      NegativeOfSquare(root, p);
    }
  }

  // ---------------------------------------------------------------------------- main results

  /** sqrt_Fp2, exactly: it succeeds if and only if the input is reduced, the norm is a square, the
      hint is the one compress_g2 computes, and the input is not real or is a nonzero square of
      the base field. */
  lemma Sqrt2Exact(a0: nat, a1: nat, hint: bool, p: nat)
    requires Modulus(p)
    ensures Sqrt2(a0, a1, hint, p).Ok? <==>
            && a0 < p && a1 < p && IsSquare(Norm(a0, a1, p), p)
            && CompressHint(a0, a1, p) == Ok(hint)
            && (Cong(a1, 0, p) ==> IsSquare(a0, p) && !Cong(a0, 0, p))
    ensures Sqrt2(a0, a1, hint, p).Ok? ==>
              var (x0, x1) := Sqrt2(a0, a1, hint, p).value;
              && x0 < p && x1 < p && IsRoot2(x0, x1, a0, a1, p) && !Cong(x0, 0, p)
              && IsSquare(x0, p) && (hint <==> !IsSquare(x0 * x0 + x1 * x1, p))
  {
    if !IsSquare(Norm(a0, a1, p), p) {
      NormNotSquare(a0, a1, hint, p);
    } else {
      Sqrt2Steps(a0, a1, hint, p);
      if Cong(a1, 0, p) {
        HintWhenReal(a0, a1, hint, p);
      } else {
        HintWhenImaginary(a0, a1, hint, p);
      }
      if Sqrt2(a0, a1, hint, p).Ok? {
        HintTellsNorm(a0, a1, hint, p);
      }
    }
  }

  /** The norm of a square is a square. */
  lemma NormOfSquare(x0: int, x1: int, a0: nat, a1: nat, p: nat)
    requires Modulus(p) && IsRoot2(x0, x1, a0, a1, p)
    ensures IsSquare(Norm(a0, a1, p), p)
  {
    hide Cong, Norm;
    var s, t, d := x0 * x0, x1 * x1, 2 * (x0 * x1);
    CongMul(s - t, a0, s - t, a0, p);
    CongMul(d, a1, d, a1, p);
    CongAdd((s - t) * (s - t), a0 * a0, d * d, a1 * a1, p);
    SquareOfDouble(x0, x1);
    SumSquared(s, t, d * d);
    NormCong(a0, a1, p);
    CongSymmetric(Norm(a0, a1, p), a0 * a0 + a1 * a1, p);
    CongTransitive((s + t) * (s + t), a0 * a0 + a1 * a1, Norm(a0, a1, p), p);
    assert IsRoot(s + t, Norm(a0, a1, p), p);
  }

  lemma SumSquared(s: int, t: int, d: int)
    requires s * (4 * t) == d
    ensures (s - t) * (s - t) + d == (s + t) * (s + t)
  {
  }

  /** Every real number has a root in Fp2: its own, or i times the root of its negative. */
  lemma RealIsSquare(a: int, p: nat)
    requires Modulus(p)
    ensures IsSquare2(a, 0, p)
  {
    if IsSquare(a, p) {
      var y :| IsRoot(y, a, p);
      assert IsRoot2(y, 0, a, 0, p);
    } else {
      ImaginaryRoot(a, p);
      assert IsRoot2(0, Candidate(a, p), a, 0, p);
    }
  }

  lemma ImaginaryRoot(a: int, p: nat)
    requires Modulus(p) && !IsSquare(a, p)
    ensures IsRoot2(0, Candidate(a, p), a, 0, p)
  {
    var c := Candidate(a, p);
    CandidateSquared(a, p);
    ChiOfNonSquare(a, p);
    CongMul(a, a, Chi(a, p), -1, p);
    assert a * -1 == -a;
    CongAdd(0, 0, c * c, -a, p);
  }

  /** Exactly when some hint finds a root: the reduced input has a root, and is not a real number
      that is zero or no square. The comment at the two inner square roots, that their failure
      means there is no root, fails exactly for those real numbers: they all have roots. */
  lemma FindsRootExactly(a0: nat, a1: nat, p: nat)
    requires Modulus(p) && a0 < p && a1 < p
    ensures Sqrt2(a0, a1, false, p).Ok? || Sqrt2(a0, a1, true, p).Ok? <==>
            IsSquare2(a0, a1, p) && (a1 == 0 ==> a0 != 0 && IsSquare(a0, p))
    ensures !(Sqrt2(a0, a1, false, p).Ok? && Sqrt2(a0, a1, true, p).Ok?)
    ensures IsSquare2(a0, a1, p) && Sqrt2(a0, a1, false, p).Revert? && Sqrt2(a0, a1, true, p).Revert? <==>
            a1 == 0 && (a0 == 0 || !IsSquare(a0, p))
  {
    Sqrt2Exact(a0, a1, false, p);
    Sqrt2Exact(a0, a1, true, p);
    CongZero(a0, p);
    CongZero(a1, p);
    RealIsSquare(a0, p);
    hide Sqrt2, IsSquare, IsSquare2, Cong, Norm;
    if IsSquare2(a0, a1, p) {
      SquareHasHint(a0, a1, p);
    }
  }

  lemma SquareHasHint(a0: nat, a1: nat, p: nat)
    requires Modulus(p) && IsSquare2(a0, a1, p)
    ensures IsSquare(Norm(a0, a1, p), p) && CompressHint(a0, a1, p).Ok?
  {
    var x0, x1 :| IsRoot2(x0, x1, a0, a1, p);
    NormOfSquare(x0, x1, a0, a1, p);
    SqrtExact(Norm(a0, a1, p), p);
  }

  lemma CongZero(a: nat, p: nat)
    requires p > 0 && a < p
    ensures Cong(a, 0, p) <==> a == 0
  {
    DivModUnique(a, p, 0, a);
    DivModUnique(0, p, 0, 0);
  }

  /** An input with a root that no hint finds: -1, whose root is i. */
  lemma MinusOneNotFound(hint: bool, p: nat)
    requires Modulus(p)
    ensures IsRoot2(0, 1, p - 1, 0, p) && Sqrt2(p - 1, 0, hint, p).Revert?
  {
    CongOf(-1, p - 1, -1, p);
    CongOf(0, 0, 0, p);
    HintWhenReal(p - 1, 0, hint, p);
    if IsSquare(p - 1, p) {
      SquareCong(p - 1, -1, p);
      OneIsNotMinusOne(p);
      ChiOfSquare(-1, p);
      ChiOfMinusOne(p);
    }
  }
}
