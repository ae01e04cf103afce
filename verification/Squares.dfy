/** Squares modulo a prime that leaves 3 when divided by 4. */
module Squares {
  import opened Modular
  import opened Arithmetic

  /** The moduli of the curve code. */
  ghost predicate Modulus(p: nat) {
    Prime(p) && p % 4 == 3
  }

  predicate IsRoot(y: int, a: int, p: nat)
    requires p > 0
  {
    Cong(y * y, a, p)
  }

  ghost predicate IsSquare(a: int, p: nat)
    requires p > 0
  {
    exists y :: IsRoot(y, a, p)
  }

  /** Euler's criterion is about this power. */
  function Chi(a: int, p: nat): int
    requires p > 0
  {
    Pow(a, (p - 1) / 2)
  }

  /** The candidate root. */
  function Candidate(a: int, p: nat): int {
    Pow(a, (p + 1) / 4)
  }

  lemma SquareCong(a: int, b: int, p: nat)
    requires p > 0 && Cong(a, b, p) && IsSquare(a, p)
    ensures IsSquare(b, p)
  {
    var y :| IsRoot(y, a, p);
    assert IsRoot(y, b, p);
  }

  lemma SquareCongBoth(a: int, b: int, p: nat)
    requires p > 0 && Cong(a, b, p)
    ensures IsSquare(a, p) <==> IsSquare(b, p)
  {
    if IsSquare(a, p) {
      SquareCong(a, b, p);
    }
    if IsSquare(b, p) {
      SquareCong(b, a, p);
    }
  }

  lemma ZeroIsSquare(a: int, p: nat)
    requires p > 0 && Cong(a, 0, p)
    ensures IsSquare(a, p)
  {
    assert IsRoot(0, a, p);
  }

  lemma SmallNonzero(k: int, p: nat)
    requires Prime(p) && 0 < k < p
    ensures !Cong(k, 0, p) && !Cong(-k, 0, p)
  {
    DivModUnique(k, p, 0, k);
    DivModUnique(0, p, 0, 0);
    assert -k == (-1) * p + (p - k);
    DivModUnique(-k, p, -1, p - k);
  }

  lemma OneIsNotMinusOne(p: nat)
    requires Modulus(p)
    ensures !Cong(1, -1, p) && !Cong(2, 0, p) && !Cong(1, 0, p) && !Cong(-1, 0, p)
  {
    SmallNonzero(1, p);
    SmallNonzero(2, p);
    if Cong(1, -1, p) {
      CongAdd(1, -1, 1, 1, p);
    }
  }

  lemma ChiOfProduct(a: int, b: int, p: nat)
    requires p > 0
    ensures Chi(a * b, p) == Chi(a, p) * Chi(b, p)
  {
    PowOfProduct(a, b, (p - 1) / 2);
  }

  lemma ChiSquared(a: int, p: nat)
    requires Modulus(p) && !Cong(a, 0, p)
    ensures Cong(Chi(a, p) * Chi(a, p), 1, p)
  {
    PowAdd(a, (p - 1) / 2, (p - 1) / 2);
    Fermat(a, p);
  }

  lemma ChiDichotomy(a: int, p: nat)
    requires Modulus(p) && !Cong(a, 0, p)
    ensures Cong(Chi(a, p), 1, p) || Cong(Chi(a, p), -1, p)
  {
    var c := Chi(a, p);
    ChiSquared(a, p);
    CongAdd(c * c, 1, 1, 1, p);
    assert (c - 1) * (c + 1) == c * c - 1;
    NoZeroDivisors(c - 1, c + 1, p);
    if Cong(c - 1, 0, p) {
      CongAdd(c - 1, 0, 1, 1, p);
    } else {
      CongAdd(c + 1, 0, -1, -1, p);
    }
  }

  lemma ChiOfMinusOne(p: nat)
    requires Modulus(p)
    ensures Chi(-1, p) == -1
  {
    PowOfMinusOne((p - 1) / 2);
  }

  lemma ChiOfSquare(a: int, p: nat)
    requires Modulus(p) && IsSquare(a, p) && !Cong(a, 0, p)
    ensures Cong(Chi(a, p), 1, p)
  {
    var y :| IsRoot(y, a, p);
    if Cong(y, 0, p) {
      CongMul(y, 0, y, 0, p);
    }
    PowCong(y * y, a, (p - 1) / 2, p);
    ChiOfProduct(y, y, p);
    ChiSquared(y, p);
  }

  /** The square of the candidate root. */
  lemma CandidateSquared(a: int, p: nat)
    requires Modulus(p)
    ensures Candidate(a, p) * Candidate(a, p) == a * Chi(a, p)
  {
    var e := (p + 1) / 4;
    PowAdd(a, e, e);
    assert e + e == (p - 1) / 2 + 1;
  }

  /** The candidate is a root exactly when there is one. */
  lemma CandidateExact(a: int, p: nat)
    requires Modulus(p)
    ensures IsSquare(a, p) <==> IsRoot(Candidate(a, p), a, p)
  {
    CandidateSquared(a, p);
    if IsSquare(a, p) {
      if Cong(a, 0, p) {
        CongMul(a, 0, Chi(a, p), Chi(a, p), p);
      } else {
        ChiOfSquare(a, p);
        CongMul(a, a, Chi(a, p), 1, p);
      }
    }
  }

  /** Euler's criterion for a residue that is no square. */
  /** Of the two roots of a square the candidate is the one that is a square itself: a power of a
      square is a square. */
  lemma CandidateIsSquare(a: int, p: nat)
    requires Modulus(p) && IsSquare(a, p)
    ensures IsSquare(Candidate(a, p), p)
  {
    var e := (p + 1) / 4;
    var y :| IsRoot(y, a, p);
    PowCong(y * y, a, e, p);
    PowOfProduct(y, y, e);
    assert IsRoot(Pow(y, e), Candidate(a, p), p);
  }

  lemma ChiOfNonSquare(a: int, p: nat)
    requires Modulus(p) && !IsSquare(a, p)
    ensures !Cong(a, 0, p) && Cong(Chi(a, p), -1, p)
  {
    if Cong(a, 0, p) {
      ZeroIsSquare(a, p);
    }
    ChiDichotomy(a, p);
    if Cong(Chi(a, p), 1, p) {
      CandidateSquared(a, p);
      CongMul(a, a, Chi(a, p), 1, p);
      assert IsRoot(Candidate(a, p), a, p);
    }
  }

  /** If a product is minus a nonzero square, exactly one of the factors is a square. */
  lemma ExactlyOneSquare(u: int, v: int, w: int, p: nat)
    requires Modulus(p) && !Cong(w, 0, p) && Cong(u * v, -(w * w), p)
    ensures !Cong(u, 0, p) && !Cong(v, 0, p)
    ensures IsSquare(u, p) <==> !IsSquare(v, p)
  {
    ProductNonzero(u, v, w, p);
    ChiOfProduct(u, v, p);
    ChiOfProduct(-1, w * w, p);
    ChiOfMinusOne(p);
    ChiOfProduct(w, w, p);
    ChiSquared(w, p);
    assert -1 * (w * w) == -(w * w);
    PowCong(u * v, -(w * w), (p - 1) / 2, p);
    CongMul(-1, -1, Chi(w * w, p), 1, p);
    assert Cong(Chi(u, p) * Chi(v, p), -1, p);
    OneIsNotMinusOne(p);
    if IsSquare(u, p) {
      ChiOfSquare(u, p);
      if IsSquare(v, p) {
        ChiOfSquare(v, p);
        CongMul(Chi(u, p), 1, Chi(v, p), 1, p);
      }
    } else {
      ChiOfNonSquare(u, p);
      if !IsSquare(v, p) {
        ChiOfNonSquare(v, p);
        CongMul(Chi(u, p), -1, Chi(v, p), -1, p);
      }
    }
  }

  lemma ProductNonzero(u: int, v: int, w: int, p: nat)
    requires Prime(p) && !Cong(w, 0, p) && Cong(u * v, -(w * w), p)
    ensures !Cong(u, 0, p) && !Cong(v, 0, p)
  {
    if Cong(u, 0, p) || Cong(v, 0, p) {
      if Cong(u, 0, p) {
        CongMul(u, 0, v, v, p);
      } else {
        CongMul(u, u, v, 0, p);
      }
      CongMul(-(w * w), 0, -1, -1, p);
      NoZeroDivisors(w, w, p);
    }
  }

  /** The negative of a nonzero square is no square. */
  lemma NegativeOfSquare(d: int, p: nat)
    requires Modulus(p) && IsSquare(d, p) && !Cong(d, 0, p)
    ensures !IsSquare(-d, p)
  {
    assert d * -d == -(d * d);
    ExactlyOneSquare(d, -d, d, p);
  }

  /** A sum of two squares vanishes only if both do: minus one is no square. */
  lemma NormZero(a: int, b: int, p: nat)
    requires Modulus(p) && Cong(a * a + b * b, 0, p)
    ensures Cong(a, 0, p) && Cong(b, 0, p)
  {
    CongAdd(a * a + b * b, 0, b * b, b * b, p);
    assert Cong(a * a, -(b * b), p);
    if !Cong(b, 0, p) {
      ExactlyOneSquare(a, a, b, p);
    } else {
      CongMul(b, 0, b, 0, p);
      CongMul(-1, -1, b * b, 0, p);
      NoZeroDivisors(a, a, p);
    }
  }
}
