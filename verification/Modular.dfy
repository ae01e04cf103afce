/** Congruence modulo `p`, powers, and the field of residues modulo a prime. */
module Modular {
  import opened Arithmetic

  /** `a` and `b` leave the same remainder. */
  predicate Cong(a: int, b: int, p: nat)
    requires p > 0
  {
    a % p == b % p
  }

  lemma CongReflexive(a: int, p: nat)
    requires p > 0
    ensures Cong(a, a, p)
  {
  }

  lemma CongSymmetric(a: int, b: int, p: nat)
    requires p > 0 && Cong(a, b, p)
    ensures Cong(b, a, p)
  {
  }

  lemma CongTransitive(a: int, b: int, c: int, p: nat)
    requires p > 0 && Cong(a, b, p) && Cong(b, c, p)
    ensures Cong(a, c, p)
  {
  }

  lemma CongOf(a: int, b: int, k: int, p: nat)
    requires p > 0 && a - b == k * p
    ensures Cong(a, b, p)
  {
    var q, r := b / p, b % p;
    assert a == (q + k) * p + r;
    DivModUnique(a, p, q + k, r);
  }

  lemma CongFactor(a: int, b: int, p: nat) returns (k: int)
    requires p > 0 && Cong(a, b, p)
    ensures a - b == k * p
  {
    k := a / p - b / p;
    assert a == a / p * p + a % p && b == b / p * p + b % p;
  }

  lemma CongReduce(a: int, p: nat)
    requires p > 0
    ensures Cong(a % p, a, p)
  {
    assert a == a / p * p + a % p;
    CongOf(a % p, a, -(a / p), p);
  }

  lemma CongAdd(a: int, b: int, c: int, d: int, p: nat)
    requires p > 0 && Cong(a, b, p) && Cong(c, d, p)
    ensures Cong(a + c, b + d, p) && Cong(a - c, b - d, p)
  {
    var k := CongFactor(a, b, p);
    var l := CongFactor(c, d, p);
    CongOf(a + c, b + d, k + l, p);
    CongOf(a - c, b - d, k - l, p);
  }

  lemma ProductDifference(a: int, b: int, c: int, d: int, k: int, l: int, p: int)
    requires a - b == k * p && c - d == l * p
    ensures a * c - b * d == (k * c + b * l) * p
  {
    assert a * c - b * d == (a - b) * c + b * (c - d);
    assert k * p * c == k * c * p && b * (l * p) == b * l * p;
  }

  lemma CongMul(a: int, b: int, c: int, d: int, p: nat)
    requires p > 0 && Cong(a, b, p) && Cong(c, d, p)
    ensures Cong(a * c, b * d, p)
  {
    var k := CongFactor(a, b, p);
    var l := CongFactor(c, d, p);
    ProductDifference(a, b, c, d, k, l, p);
    CongOf(a * c, b * d, k * c + b * l, p);
  }

  /** Reduced residues are congruent only if they are equal. */
  lemma CongReduced(a: int, b: int, p: nat)
    requires p > 0 && Cong(a, b, p) && 0 <= a < p && 0 <= b < p
    ensures a == b
  {
    DivModUnique(a, p, 0, a);
    DivModUnique(b, p, 0, b);
  }

  // ---------------------------------------------------------------------------------- powers

  function Pow(a: int, e: nat): int {
    if e == 0 then 1 else a * Pow(a, e - 1)
  }

  lemma {:induction false} PowAdd(a: int, m: nat, n: nat)
    ensures Pow(a, m + n) == Pow(a, m) * Pow(a, n)
  {
    if m > 0 {
      PowAdd(a, m - 1, n);
      assert a * (Pow(a, m - 1) * Pow(a, n)) == a * Pow(a, m - 1) * Pow(a, n);
    }
  }

  lemma Regroup(a: int, b: int, x: int, y: int)
    ensures a * b * (x * y) == (a * x) * (b * y)
  {
  }

  lemma {:induction false} PowOfProduct(a: int, b: int, e: nat)
    ensures Pow(a * b, e) == Pow(a, e) * Pow(b, e)
  {
    if e > 0 {
      PowOfProduct(a, b, e - 1);
      Regroup(a, b, Pow(a, e - 1), Pow(b, e - 1));
    }
  }

  lemma {:induction false} PowOfPow(a: int, m: nat, n: nat)
    ensures m * n >= 0 && Pow(Pow(a, m), n) == Pow(a, m * n)
  {
    MulNonNegative(m, n);
    if n > 0 {
      PowOfPow(a, m, n - 1);
      assert m * n == m + m * (n - 1);
      PowAdd(a, m, m * (n - 1));
    } else {
      assert m * n == 0;
    }
  }

  lemma {:induction false} PowCong(a: int, b: int, e: nat, p: nat)
    requires p > 0 && Cong(a, b, p)
    ensures Cong(Pow(a, e), Pow(b, e), p)
  {
    if e > 0 {
      PowCong(a, b, e - 1, p);
      CongMul(a, b, Pow(a, e - 1), Pow(b, e - 1), p);
    }
  }

  lemma {:induction false} PowOfMinusOne(e: nat)
    ensures Pow(-1, e) == if e % 2 == 0 then 1 else -1
  {
    if e > 0 {
      PowOfMinusOne(e - 1);
    }
  }

  // ---------------------------------------------------------------------------------- primes

  predicate Divides(d: nat, n: nat)
    requires d > 0
  {
    n % d == 0
  }

  ghost predicate Prime(p: nat) {
    p > 1 && forall d: nat :: 1 < d < p ==> !Divides(d, p)
  }

  /** Every residue between 1 and p - 1 has an inverse: one step of Euclid's algorithm at a time. */
  lemma {:induction false} Inverse(a: nat, p: nat) returns (x: int)
    requires Prime(p) && 0 < a < p
    ensures Cong(a * x, 1, p)
    decreases a
  {
    if a == 1 {
      x := 1;
    } else {
      var q, r := p / a, p % a;
      assert !Divides(a, p);
      var y := Inverse(r, p);
      x := -q * y;
      assert p == q * a + r;
      assert a * x == -(q * a) * y == r * y - y * p by {
        assert -(q * a) == r - p;
      }
      CongOf(a * x, r * y, -y, p);
    }
  }

  /** A product that vanishes has a factor that vanishes. */
  lemma NoZeroDivisors(a: int, b: int, p: nat)
    requires Prime(p) && Cong(a * b, 0, p)
    ensures Cong(a, 0, p) || Cong(b, 0, p)
  {
    if !Cong(a, 0, p) {
      CongReduce(a, p);
      var x := Inverse(a % p, p);
      CongMul(a % p, a, x, x, p);
      assert Cong(a * x, 1, p);
      CongMul(a * x, 1, b, b, p);
      CongMul(a * b, 0, x, x, p);
      assert a * x * b == a * b * x;
    }
  }

  /** A factor that does not vanish can be cancelled. */
  lemma Cancel(a: int, b: int, c: int, p: nat)
    requires Prime(p) && !Cong(a, 0, p) && Cong(a * b, a * c, p)
    ensures Cong(b, c, p)
  {
    CongAdd(a * b, a * c, a * c, a * c, p);
    assert a * b - a * c == a * (b - c);
    NoZeroDivisors(a, b - c, p);
    CongAdd(b - c, 0, c, c, p);
  }

  // ------------------------------------------------------------- Fermat's little theorem

  /** Some member of a non-empty set. */
  ghost function Pick<T>(s: set<T>): (x: T)
    requires s != {}
    ensures x in s
  {
    var x :| x in s;
    x
  }

  /** The product of a set of numbers. */
  ghost function Product(s: set<int>): int {
    if s == {} then 1
    else
      var x := Pick(s);
      x * Product(s - {x})
  }

  lemma {:induction false} ProductOf(s: set<int>, x: int)
    requires x in s
    ensures Product(s) == x * Product(s - {x})
  {
    var y := Pick(s);
    if x != y {
      ProductOf(s - {y}, x);
      ProductOf(s - {x}, y);
      assert s - {y} - {x} == s - {x} - {y};
      var r := Product(s - {x} - {y});
      assert y * (x * r) == x * (y * r);
    }
  }

  function Scale(a: int, x: int, p: nat): int
    requires p > 0
  {
    a * x % p
  }

  /** Every residue of the set multiplied by `a`. */
  function Scaled(a: int, s: set<int>, p: nat): set<int>
    requires p > 0
  {
    set x | x in s :: Scale(a, x, p)
  }

  /** The residues below `n` that do not vanish. */
  function Units(n: nat): (r: set<int>)
    ensures forall x :: x in r <==> 0 < x < n
    ensures |r| == if n == 0 then 0 else n - 1
  {
    if n <= 1 then {} else Units(n - 1) + {n - 1}
  }

  lemma ScaledInsert(a: int, s: set<int>, x: int, p: nat)
    requires Prime(p) && !Cong(a, 0, p) && s <= Units(p) && x in s
    ensures Scale(a, x, p) !in Scaled(a, s - {x}, p)
    ensures Scaled(a, s, p) == Scaled(a, s - {x}, p) + {Scale(a, x, p)}
  {
    forall z | z in s - {x}
      ensures Scale(a, z, p) != Scale(a, x, p)
    {
      if Scale(a, z, p) == Scale(a, x, p) {
        Cancel(a, z, x, p);
        CongReduced(z, x, p);
      }
    }
  }

  lemma ProductStep(a: int, x: int, product: int, u: int, v: int, p: nat)
    requires p > 0 && Cong(product, u * v, p)
    ensures Cong(Scale(a, x, p) * product, (a * u) * (x * v), p)
  {
    CongReduce(a * x, p);
    CongMul(a * x % p, a * x, product, u * v, p);
    Regroup(a, x, u, v);
  }

  lemma ProductsOfInsert(s: set<int>, x: int, t: set<int>, y: int)
    requires x in s && y !in t
    ensures Product(s) == x * Product(s - {x}) && Product(t + {y}) == y * Product(t)
    ensures |s| == |s - {x}| + 1 && |t + {y}| == |t| + 1
  {
    ProductOf(s, x);
    ProductOf(t + {y}, y);
    assert t + {y} - {y} == t;
  }

  lemma {:induction false} ScaledProduct(a: int, s: set<int>, p: nat)
    requires Prime(p) && !Cong(a, 0, p) && s <= Units(p)
    ensures |Scaled(a, s, p)| == |s|
    ensures Cong(Product(Scaled(a, s, p)), Pow(a, |s|) * Product(s), p)
    decreases |s|
  {
    if s == {} {
      assert Scaled(a, s, p) == {};
    } else {
      hide Cong, Scaled, Prime, Units, Product, Scale;
      var x := Pick(s);
      var rest, y := s - {x}, Scale(a, x, p);
      ScaledProduct(a, rest, p);
      ScaledInsert(a, s, x, p);
      ProductsOfInsert(s, x, Scaled(a, rest, p), y);
      ProductStep(a, x, Product(Scaled(a, rest, p)), Pow(a, |rest|), Product(rest), p);
    }
  }

  lemma {:induction false} UnitsProduct(s: set<int>, p: nat)
    requires Prime(p) && s <= Units(p)
    ensures !Cong(Product(s), 0, p)
    decreases |s|
  {
    if s == {} {
      DivModUnique(1, p, 0, 1);
      DivModUnique(0, p, 0, 0);
    } else {
      var x := Pick(s);
      ProductOf(s, x);
      UnitsProduct(s - {x}, p);
      DivModUnique(x, p, 0, x);
      DivModUnique(0, p, 0, 0);
      if Cong(Product(s), 0, p) {
        NoZeroDivisors(x, Product(s - {x}), p);
      }
    }
  }

  lemma SubsetOfSameSize(s: set<int>, t: set<int>)
    requires s <= t && |s| == |t|
    ensures s == t
  {
    assert t == s + (t - s);
    assert |t| == |s| + |t - s|;
  }

  lemma ScaledUnits(a: int, p: nat)
    requires Prime(p) && !Cong(a, 0, p)
    ensures |Units(p)| == p - 1 && Scaled(a, Units(p), p) == Units(p)
  {
    var s := Units(p);
    ScaledProduct(a, s, p);
    forall x | x in s ensures Scale(a, x, p) in s {
      if Scale(a, x, p) == 0 {
        DivModUnique(0, p, 0, 0);
        NoZeroDivisors(a, x, p);
        DivModUnique(x, p, 0, x);
      }
    }
    SubsetOfSameSize(Scaled(a, s, p), s);
  }

  /** Fermat's little theorem. */
  lemma Fermat(a: int, p: nat)
    requires Prime(p) && !Cong(a, 0, p)
    ensures Cong(Pow(a, p - 1), 1, p)
  {
    hide Scaled, Pow;
    ScaledUnits(a, p);
    ScaledProduct(a, Units(p), p);
    UnitsProduct(Units(p), p);
    var n, e := Product(Units(p)), Pow(a, p - 1);
    assert e * n == n * e && n == n * 1;
    Cancel(n, e, 1, p);
  }
}
