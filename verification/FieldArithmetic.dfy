/** The field arithmetic of contracts/groth16/Groth16Verifier.sol, over any prime `p` that leaves 3
    when divided by 4, and when its inversions and square roots succeed. */
module FieldArithmetic {
  import opened Bytes
  import opened Modular
  import opened Squares

  // ------------------------------------------------------------------------- the contract's code

  function AddMod(a: nat, b: nat, p: nat): nat
    requires p > 0
  {
    (a + b) % p
  }

  function MulMod(a: nat, b: nat, p: nat): nat
    requires p > 0
  {
    (a * b) % p
  }

  function Negate(a: nat, p: nat): nat
    requires p > 0
  {
    (p - a % p) % p
  }

  /** The modular exponentiation precompile. */
  function Exp(a: nat, e: nat, p: nat): nat
    requires p > 0
  {
    Pow(a, e) % p
  }

  /** (p + 1) / 2, the inverse of two. */
  function Half(p: nat): nat {
    (p + 1) / 2
  }

  /** invert_Fp */
  function Invert(a: nat, p: nat): Outcome<nat>
    requires p > 1
  {
    var x := Exp(a, p - 2, p);
    if MulMod(a, x, p) != 1 then Revert(ProofInvalid) else Ok(x)
  }

  /** sqrt_Fp */
  function Sqrt(a: nat, p: nat): Outcome<nat>
    requires p > 0
  {
    var x := Exp(a, (p + 1) / 4, p);
    if MulMod(x, x, p) != a then Revert(ProofInvalid) else Ok(x)
  }

  /** isSquare_Fp */
  predicate IsSquareFp(a: nat, p: nat)
    requires p > 0
  {
    var x := Exp(a, (p + 1) / 4, p);
    MulMod(x, x, p) == a
  }

  /** sqrt_Fp2 from the square root of `u` on. */
  function Sqrt2Tail(a0: nat, a1: nat, u: nat, p: nat): Outcome<(nat, nat)>
    requires p > 1
  {
    var x0 :- Sqrt(u, p);
    var inverse :- Invert(MulMod(x0, 2, p), p);
    var x1 := MulMod(a1, inverse, p);
    if a0 != AddMod(MulMod(x0, x0, p), Negate(MulMod(x1, x1, p), p), p) || a1 != MulMod(2, MulMod(x0, x1, p), p)
    then Revert(ProofInvalid)
    else Ok((x0, x1))
  }

  /** sqrt_Fp2: a square root of a0 + a1 i, where i^2 = -1. */
  function Sqrt2(a0: nat, a1: nat, hint: bool, p: nat): Outcome<(nat, nat)>
    requires p > 1
  {
    var root :- Sqrt(AddMod(MulMod(a0, a0, p), MulMod(a1, a1, p), p), p);
    var d := if hint then Negate(root, p) else root;
    Sqrt2Tail(a0, a1, MulMod(AddMod(a0, d, p), Half(p), p), p)
  }

  // ------------------------------------------------------------------- as congruences

  lemma AddModCong(a: nat, b: nat, x: int, y: int, p: nat)
    requires p > 0 && Cong(a, x, p) && Cong(b, y, p)
    ensures Cong(AddMod(a, b, p), x + y, p) && AddMod(a, b, p) < p
  {
    CongReduce(a + b, p);
    CongAdd(a, x, b, y, p);
  }

  lemma MulModCong(a: nat, b: nat, x: int, y: int, p: nat)
    requires p > 0 && Cong(a, x, p) && Cong(b, y, p)
    ensures Cong(MulMod(a, b, p), x * y, p) && MulMod(a, b, p) < p
  {
    CongReduce(a * b, p);
    CongMul(a, x, b, y, p);
  }

  /** negate is the additive inverse, reduced. */
  lemma NegateCong(a: nat, x: int, p: nat)
    requires p > 0 && Cong(a, x, p)
    ensures Cong(Negate(a, p), -x, p) && Negate(a, p) < p
  {
    CongReduce(p - a % p, p);
    CongReduce(a, p);
    CongAdd(0, 0, a % p, x, p);
    CongOf(p - a % p, -(a % p), 1, p);
  }

  lemma HalfDoubles(a: int, p: nat)
    requires p > 0 && p % 2 == 1
    ensures Cong(2 * (a * Half(p)), a, p)
  {
    assert 2 * Half(p) == p + 1;
    assert 2 * (a * Half(p)) - a == a * p;
    CongOf(2 * (a * Half(p)), a, a, p);
  }

  // ---------------------------------------------------------------------- exactness

  lemma ExpCong(a: nat, e: nat, p: nat)
    requires p > 0
    ensures Cong(Exp(a, e, p), Pow(a, e), p) && Exp(a, e, p) < p
  {
    CongReduce(Pow(a, e), p);
  }

  /** The square of a reduced number equals `a` exactly when `a` is reduced and congruent to it. */
  lemma MulModIs(x: nat, y: nat, a: nat, p: nat)
    requires p > 0
    ensures MulMod(x, y, p) == a <==> a < p && Cong(x * y, a, p)
  {
    CongReduce(x * y, p);
    if a < p && Cong(x * y, a, p) {
      CongReduced(MulMod(x, y, p), a, p);
    }
  }

  /** sqrt_Fp succeeds exactly on reduced squares and returns a reduced root that is itself a
      power of the argument; isSquare_Fp agrees. */
  lemma SqrtExact(a: nat, p: nat)
    requires Modulus(p)
    ensures Sqrt(a, p).Ok? <==> a < p && IsSquare(a, p)
    ensures Sqrt(a, p).Ok? ==> var x := Sqrt(a, p).value;
                               x < p && IsRoot(x, a, p) && IsSquare(x, p) && Cong(x, Candidate(a, p), p)
    ensures IsSquareFp(a, p) <==> a < p && IsSquare(a, p)
  {
    var x, s := Exp(a, (p + 1) / 4, p), Candidate(a, p);
    ExpCong(a, (p + 1) / 4, p);
    CongMul(x, s, x, s, p);
    MulModIs(x, x, a, p);
    CandidateExact(a, p);
    if IsSquare(a, p) {
      CandidateIsSquare(a, p);
      SquareCong(s, x, p);
    }
  }

  /** invert_Fp succeeds exactly when the argument does not vanish, and returns the inverse. */
  lemma InvertExact(a: nat, p: nat)
    requires Modulus(p)
    ensures Invert(a, p).Ok? <==> !Cong(a, 0, p)
    ensures Invert(a, p).Ok? ==> Invert(a, p).value < p && Cong(a * Invert(a, p).value, 1, p)
  {
    var x := Exp(a, p - 2, p);
    ExpCong(a, p - 2, p);
    CongMul(a, a, x, Pow(a, p - 2), p);
    assert Pow(a, p - 1) == a * Pow(a, p - 2);
    MulModIs(a, x, 1, p);
    OneIsNotMinusOne(p);
    if Cong(a, 0, p) {
      CongMul(a, 0, x, x, p);
    } else {
      Fermat(a, p);
    }
  }

  // -------------------------------------------------------------------------- roots in Fp2

  /** x0 + x1 i is a square root of a0 + a1 i. */
  predicate IsRoot2(x0: int, x1: int, a0: int, a1: int, p: nat)
    requires p > 0
  {
    Cong(x0 * x0 - x1 * x1, a0, p) && Cong(2 * (x0 * x1), a1, p)
  }

  ghost predicate IsSquare2(a0: int, a1: int, p: nat)
    requires p > 0
  {
    exists x0, x1 :: IsRoot2(x0, x1, a0, a1, p)
  }

  /** The final test of sqrt_Fp2. */
  lemma RootTest(x0: nat, x1: nat, a0: nat, a1: nat, p: nat)
    requires p > 0
    ensures a0 == AddMod(MulMod(x0, x0, p), Negate(MulMod(x1, x1, p), p), p) && a1 == MulMod(2, MulMod(x0, x1, p), p)
            <==> a0 < p && a1 < p && IsRoot2(x0, x1, a0, a1, p)
  {
    MulModCong(x0, x0, x0, x0, p);
    MulModCong(x1, x1, x1, x1, p);
    NegateCong(MulMod(x1, x1, p), x1 * x1, p);
    AddModCong(MulMod(x0, x0, p), Negate(MulMod(x1, x1, p), p), x0 * x0, -(x1 * x1), p);
    MulModCong(x0, x1, x0, x1, p);
    MulModCong(2, MulMod(x0, x1, p), 2, x0 * x1, p);
    var r0, r1 := AddMod(MulMod(x0, x0, p), Negate(MulMod(x1, x1, p), p), p), MulMod(2, MulMod(x0, x1, p), p);
    assert x0 * x0 + -(x1 * x1) == x0 * x0 - x1 * x1;
    if a0 < p && a1 < p && IsRoot2(x0, x1, a0, a1, p) {
      CongReduced(a0, r0, p);
      CongReduced(a1, r1, p);
    }
  }

  /** From 2u = v and s = u follows 4us = v^2. */
  lemma FourTimesProduct(u: int, s: int, v: int, p: nat)
    requires p > 0 && Cong(2 * u, v, p) && Cong(s, u, p)
    ensures Cong(4 * u * s, v * v, p)
  {
    hide Cong;
    CongReflexive(4 * u, p);
    CongMul(4 * u, 4 * u, s, u, p);
    CongMul(2 * u, v, 2 * u, v, p);
    assert 4 * u * u == (2 * u) * (2 * u);
    CongTransitive(4 * u * s, 4 * u * u, v * v, p);
  }

  /** From x0^2 = u and 2 x0 x1 = a follows 4 u x1^2 = a^2. */
  lemma FourTimesSquares(u: int, x0: int, x1: int, a: int, p: nat)
    requires p > 0 && Cong(x0 * x0, u, p) && Cong(2 * (x0 * x1), a, p)
    ensures Cong(u * (4 * (x1 * x1)), a * a, p)
  {
    hide Cong;
    var t := 4 * (x1 * x1);
    CongReflexive(t, p);
    CongSymmetric(x0 * x0, u, p);
    CongMul(u, x0 * x0, t, t, p);
    CongMul(2 * (x0 * x1), a, 2 * (x0 * x1), a, p);
    SquareOfDouble(x0, x1);
    CongTransitive(u * t, (x0 * x0) * t, a * a, p);
  }

  lemma SquareOfDouble(x: int, y: int)
    ensures (x * x) * (4 * (y * y)) == (2 * (x * y)) * (2 * (x * y))
  {
    assert (x * x) * (y * y) == (x * y) * (x * y);
  }

  /** From a root of half of a0 + e, where e^2 is the norm, to a root of the whole. */
  lemma RootFromHalf(a0: int, a1: int, e: int, u: int, x0: int, x1: int, p: nat)
    requires Modulus(p)
    requires Cong(e * e, a0 * a0 + a1 * a1, p) && Cong(2 * u, a0 + e, p)
    requires IsRoot(x0, u, p) && Cong(2 * (x0 * x1), a1, p) && !Cong(u, 0, p)
    ensures IsRoot2(x0, x1, a0, a1, p)
  {
    var s, t := x0 * x0, x1 * x1;
    assert Cong(s, u, p);
    hide Cong;
    // 4 u (s - t) is congruent to (a0 + e)^2 - a1^2
    FourTimesProduct(u, s, a0 + e, p);
    FourTimesSquares(u, x0, x1, a1, p);
    CongAdd(4 * u * s, (a0 + e) * (a0 + e), u * (4 * t), a1 * a1, p);
    // and 4 u a0 to (a0 + e) 2 a0
    CongReflexive(2 * a0, p);
    CongMul(2 * u, a0 + e, 2 * a0, 2 * a0, p);
    FinishRoot(a0, a1, e, u, s, t, p);
  }

  lemma NormIdentity(a0: int, a1: int, e: int)
    ensures (a0 + e) * (a0 + e) - a1 * a1 - (a0 + e) * (2 * a0) == e * e - (a0 * a0 + a1 * a1)
  {
    var x := a0 + e;
    assert x * x - x * (2 * a0) == x * (e - a0) == e * e - a0 * a0;
  }

  lemma NormCong(a0: int, a1: int, e: int, p: nat)
    requires p > 0 && Cong(e * e, a0 * a0 + a1 * a1, p)
    ensures Cong((a0 + e) * (a0 + e) - a1 * a1, (a0 + e) * (2 * a0), p)
  {
    hide Cong;
    NormIdentity(a0, a1, e);
    var k := CongFactor(e * e, a0 * a0 + a1 * a1, p);
    CongOf((a0 + e) * (a0 + e) - a1 * a1, (a0 + e) * (2 * a0), k, p);
  }

  lemma CancelChain(w: int, x: int, y: int, wx: int, wy: int, m: int, n: int, p: nat)
    requires Prime(p) && !Cong(w, 0, p) && wx == w * x && wy == w * y
    requires Cong(wx, m, p) && Cong(wy, n, p) && Cong(m, n, p)
    ensures Cong(x, y, p)
  {
    Cancel(w, x, y, p);
  }

  lemma FourTimesNonzero(u: int, p: nat)
    requires Modulus(p) && !Cong(u, 0, p)
    ensures !Cong(4 * u, 0, p)
  {
    OneIsNotMinusOne(p);
    if Cong(4 * u, 0, p) {
      assert 2 * (2 * u) == 4 * u;
      NoZeroDivisors(2, 2 * u, p);
      NoZeroDivisors(2, u, p);
    }
  }

  lemma FinishRoot(a0: int, a1: int, e: int, u: int, s: int, t: int, p: nat)
    requires Modulus(p) && !Cong(u, 0, p)
    requires Cong(e * e, a0 * a0 + a1 * a1, p)
    requires Cong(4 * u * s - u * (4 * t), (a0 + e) * (a0 + e) - a1 * a1, p)
    requires Cong((2 * u) * (2 * a0), (a0 + e) * (2 * a0), p)
    ensures Cong(s - t, a0, p)
  {
    hide Cong;
    NormCong(a0, a1, e, p);
    FourTimesNonzero(u, p);
    assert 4 * u * s - u * (4 * t) == (4 * u) * (s - t) && (2 * u) * (2 * a0) == (4 * u) * a0;
    CancelChain(4 * u, s - t, a0, 4 * u * s - u * (4 * t), (2 * u) * (2 * a0),
                (a0 + e) * (a0 + e) - a1 * a1, (a0 + e) * (2 * a0), p);
  }

  /** The two halves: with e^2 the norm, half of a0 + e times half of a0 - e is minus the square of
      half of a1. */
  lemma HalvesProduct(a0: int, a1: int, e: int, p: nat)
    requires Modulus(p) && Cong(e * e, a0 * a0 + a1 * a1, p)
    ensures var h := Half(p);
            Cong(((a0 + e) * h) * ((a0 - e) * h), -((a1 * h) * (a1 * h)), p)
  {
    hide Cong;
    var h := Half(p);
    var k := CongFactor(e * e, a0 * a0 + a1 * a1, p);
    DifferenceTimes(a0, e, h);
    SquareTimes(a1, h);
    CongOf(a0 * a0 - e * e, -(a1 * a1), -k, p);
    CongReflexive(h * h, p);
    CongMul(a0 * a0 - e * e, -(a1 * a1), h * h, h * h, p);
  }

  lemma DifferenceTimes(a: int, e: int, h: int)
    ensures ((a + e) * h) * ((a - e) * h) == (a * a - e * e) * (h * h)
  {
    var x, y := a + e, a - e;
    assert x * y == a * a - e * e;
    assert (x * h) * (y * h) == (x * y) * (h * h);
  }

  lemma SquareTimes(a: int, h: int)
    ensures -((a * h) * (a * h)) == (-(a * a)) * (h * h)
  {
    assert (a * h) * (a * h) == (a * a) * (h * h);
  }
}
