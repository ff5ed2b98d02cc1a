/** Polynomials as coefficient sequences, lowest degree first, as
    `SplitToShamirShares` keeps them. The algebra is done over the integers and
    only compared modulo p, so no reduction is ever pushed through a product. */
module Polynomial {
  import opened ModArith

  /** The value at `x`, by Horner's rule. */
  function Eval(c: seq<int>, x: int): int {
    if |c| == 0 then 0 else c[0] + x * Eval(c[1..], x)
  }

  ghost predicate AllCong(a: seq<int>, b: seq<int>, p: int)
    requires p > 0
  {
    |a| == |b| && forall k :: 0 <= k < |a| ==> Cong(a[k], b[k], p)
  }

  /** The points are pairwise different modulo p. */
  ghost predicate Distinct(xs: seq<int>, p: int)
    requires p > 0
  {
    forall i, j :: 0 <= i < j < |xs| ==> !Cong(xs[i], xs[j], p)
  }

  /** `c` passes through every point (xs[i], ys[i]) modulo p. */
  ghost predicate Interpolates(c: seq<int>, xs: seq<int>, ys: seq<int>, p: int)
    requires p > 0 && |xs| == |ys|
  {
    forall i :: 0 <= i < |xs| ==> Cong(Eval(c, xs[i]), ys[i], p)
  }

  lemma EvalAtZero(c: seq<int>)
    ensures Eval(c, 0) == if |c| == 0 then 0 else c[0]
  {
  }

  // ---- sums and multiples ------------------------------------------------

  function Add(a: seq<int>, b: seq<int>): (c: seq<int>)
    requires |a| == |b|
    ensures |c| == |a|
  {
    seq(|a|, i requires 0 <= i < |a| => a[i] + b[i])
  }

  function Scale(a: seq<int>, s: int): (c: seq<int>)
    ensures |c| == |a|
  {
    seq(|a|, i requires 0 <= i < |a| => s * a[i])
  }

  lemma {:induction false} EvalAdd(a: seq<int>, b: seq<int>, x: int)
    requires |a| == |b|
    ensures Eval(Add(a, b), x) == Eval(a, x) + Eval(b, x)
  {
    if |a| > 0 {
      EvalAdd(a[1..], b[1..], x);
      assert Add(a, b)[1..] == Add(a[1..], b[1..]);
      Distribute(x, Eval(a[1..], x), Eval(b[1..], x));
    }
  }

  lemma Distribute(x: int, y: int, z: int)
    ensures x * (y + z) == x * y + x * z
  {
  }

  lemma Commute(x: int, y: int)
    ensures x * y == y * x
  {
  }

  lemma EvalConstant(c: int, x: int)
    ensures Eval([c], x) == c
  {
  }

  lemma ScaleStep(s: int, a: int, x: int, e: int)
    ensures s * a + x * (s * e) == s * (a + x * e)
  {
  }

  lemma {:induction false} EvalScale(a: seq<int>, s: int, x: int)
    ensures Eval(Scale(a, s), x) == s * Eval(a, x)
  {
    if |a| > 0 {
      EvalScale(a[1..], s, x);
      assert Scale(a, s)[1..] == Scale(a[1..], s);
      ScaleStep(s, a[0], x, Eval(a[1..], x));
    }
  }

  // ---- a polynomial with as many roots as coefficients vanishes ----------

  /** The quotient of `f` by (X - r). */
  function Quotient(f: seq<int>, r: int): (q: seq<int>)
    requires |f| > 0
    ensures |q| == |f| - 1
    ensures forall k :: 0 <= k < |q| ==> q[k] == Eval(f[k + 1..], r)
  {
    seq(|f| - 1, k requires 0 <= k < |f| - 1 => Eval(f[k + 1..], r))
  }

  lemma {:induction false} QuotientDivides(f: seq<int>, r: int, x: int)
    requires |f| > 0
    ensures Eval(f, x) == (x - r) * Eval(Quotient(f, r), x) + Eval(f, r)
  {
    if |f| > 1 {
      var g := f[1..];
      QuotientDivides(g, r, x);
      assert Quotient(f, r)[1..] == Quotient(g, r);
      var q, gx, gr := Eval(Quotient(g, r), x), Eval(g, x), Eval(g, r);
      assert Eval(Quotient(f, r), x) == gr + x * q;
      FactorStep(x, r, q, gx, gr);
    } else {
      assert Eval(f[1..], x) == 0;
    }
  }

  lemma FactorStep(x: int, r: int, q: int, gx: int, gr: int)
    requires gx == (x - r) * q + gr
    ensures x * gx == (x - r) * (gr + x * q) + r * gr
  {
  }

  /** A polynomial with at most as many coefficients as it has distinct roots is zero. */
  lemma {:induction false} TooManyRoots(f: seq<int>, xs: seq<int>, p: int)
    requires IsPrime(p) && |f| == |xs| && Distinct(xs, p)
    requires forall i :: 0 <= i < |xs| ==> Cong(Eval(f, xs[i]), 0, p)
    ensures forall k :: 0 <= k < |f| ==> Cong(f[k], 0, p)
    decreases |f|
  {
    if |f| > 0 {
      var r, q := xs[0], Quotient(f, xs[0]);
      forall i | 0 <= i < |xs[1..]| ensures Cong(Eval(q, xs[1..][i]), 0, p) {
        OtherRootsStay(f, r, xs[i + 1], p);
      }
      TooManyRoots(q, xs[1..], p);
      forall k | 0 <= k < |f| ensures Cong(f[k], 0, p) {
        CoefficientFromQuotient(f, r, k, p);
      }
    }
  }

  lemma OtherRootsStay(f: seq<int>, r: int, x: int, p: int)
    requires IsPrime(p) && |f| > 0 && !Cong(r, x, p)
    requires Cong(Eval(f, r), 0, p) && Cong(Eval(f, x), 0, p)
    ensures Cong(Eval(Quotient(f, r), x), 0, p)
  {
    QuotientDivides(f, r, x);
    if Cong(x - r, 0, p) {
      CongAdd(x - r, 0, r, r, p);
    }
    VanishingFactor(Eval(f, x), Eval(f, r), x - r, Eval(Quotient(f, r), x), p);
  }

  lemma VanishingFactor(fx: int, fr: int, d: int, e: int, p: int)
    requires IsPrime(p) && Cong(fx, 0, p) && Cong(fr, 0, p) && !Cong(d, 0, p)
    requires fx == d * e + fr
    ensures Cong(e, 0, p)
  {
    CongAdd(fx, 0, fr, 0, p);
    NoZeroDivisors(d, e, p);
  }

  lemma CoefficientFromQuotient(f: seq<int>, r: int, k: nat, p: int)
    requires p > 0 && k < |f| && Cong(Eval(f, r), 0, p)
    requires forall i :: 0 <= i < |f| - 1 ==> Cong(Quotient(f, r)[i], 0, p)
    ensures Cong(f[k], 0, p)
  {
    var here, next := Eval(f[k..], r), Eval(f[k + 1..], r);
    assert f[k..][1..] == f[k + 1..];
    assert Cong(here, 0, p) by {
      if k == 0 {
        assert f[k..] == f;
      } else {
        assert Quotient(f, r)[k - 1] == here;
      }
    }
    assert Cong(next, 0, p) by {
      if k + 1 < |f| {
        assert Quotient(f, r)[k] == next;
      }
    }
    CongMul(r, r, next, 0, p);
    CongAdd(here, 0, r * next, r * 0, p);
  }

  /** Two polynomials of `|xs|` coefficients that agree on the points xs agree
      in every coefficient. */
  lemma InterpolationUnique(f: seq<int>, g: seq<int>, xs: seq<int>, p: int)
    requires IsPrime(p) && |f| == |g| == |xs| && Distinct(xs, p)
    requires forall i :: 0 <= i < |xs| ==> Cong(Eval(f, xs[i]), Eval(g, xs[i]), p)
    ensures AllCong(f, g, p)
  {
    var d := Add(f, Scale(g, -1));
    forall i | 0 <= i < |xs| ensures Cong(Eval(d, xs[i]), 0, p) {
      DifferenceVanishes(f, g, xs[i], p);
    }
    TooManyRoots(d, xs, p);
    forall k | 0 <= k < |f| ensures Cong(f[k], g[k], p) {
      assert d[k] == f[k] - g[k];
      CongAdd(d[k], 0, g[k], g[k], p);
    }
  }

  lemma DifferenceVanishes(f: seq<int>, g: seq<int>, x: int, p: int)
    requires p > 0 && |f| == |g| && Cong(Eval(f, x), Eval(g, x), p)
    ensures Cong(Eval(Add(f, Scale(g, -1)), x), 0, p)
  {
    EvalAdd(f, Scale(g, -1), x);
    EvalScale(g, -1, x);
    CongAdd(Eval(f, x), Eval(g, x), Eval(g, x), Eval(g, x), p);
  }

  // ---- the Lagrange polynomial -------------------------------------------

  /** The coefficients of (r - X)·c. */
  function MulRoot(c: seq<int>, r: int): (d: seq<int>)
    ensures |d| == |c| + 1
  {
    if |c| == 0 then [0] else
      var m := MulRoot(c[1..], r);
      [r * c[0], m[0] - c[0]] + m[1..]
  }

  lemma {:induction false} EvalMulRoot(c: seq<int>, r: int, x: int)
    ensures Eval(MulRoot(c, r), x) == (r - x) * Eval(c, x)
  {
    if |c| == 0 {
      assert MulRoot(c, r)[1..] == [];
    } else {
      var m, e := MulRoot(c[1..], r), Eval(c[1..], x);
      EvalMulRoot(c[1..], r, x);
      assert MulRoot(c, r)[1..] == [m[0] - c[0]] + m[1..];
      EvalHead(m, c[0], x);
      MulRootStep(c[0], r, x, e);
    }
  }

  lemma EvalHead(m: seq<int>, c: int, x: int)
    requires |m| > 0
    ensures Eval([m[0] - c] + m[1..], x) == Eval(m, x) - c
  {
    assert ([m[0] - c] + m[1..])[1..] == m[1..];
  }

  lemma MulRootStep(c: int, r: int, x: int, e: int)
    ensures r * c + x * ((r - x) * e - c) == (r - x) * (c + x * e)
  {
  }

  /** The product of (xs[k] - x) over k < j with k != i: the accumulator of the
      inner loop of `CombineShamirShares`. */
  function ProdExcept(xs: seq<int>, i: nat, j: nat, x: int): int
    requires j <= |xs|
  {
    if j == 0 then 1
    else if j - 1 == i then ProdExcept(xs, i, j - 1, x)
    else ProdExcept(xs, i, j - 1, x) * (xs[j - 1] - x)
  }

  /** The same product as a polynomial in x. */
  function Basis(xs: seq<int>, i: nat, j: nat): (c: seq<int>)
    requires j <= |xs|
    ensures |c| == if i < j then j else j + 1
  {
    if j == 0 then [1]
    else if j - 1 == i then Basis(xs, i, j - 1)
    else MulRoot(Basis(xs, i, j - 1), xs[j - 1])
  }

  lemma {:induction false} EvalBasis(xs: seq<int>, i: nat, j: nat, x: int)
    requires j <= |xs|
    ensures Eval(Basis(xs, i, j), x) == ProdExcept(xs, i, j, x)
  {
    if j > 0 {
      EvalBasis(xs, i, j - 1, x);
      if j - 1 != i {
        EvalMulRoot(Basis(xs, i, j - 1), xs[j - 1], x);
        Commute(xs[j - 1] - x, ProdExcept(xs, i, j - 1, x));
      }
    } else {
      EvalConstant(1, x);
    }
  }

  /** The product vanishes at every point it runs over. */
  lemma {:induction false} ProdExceptVanishes(xs: seq<int>, i: nat, j: nat, k: nat)
    requires k < j <= |xs| && k != i
    ensures ProdExcept(xs, i, j, xs[k]) == 0
  {
    if k < j - 1 {
      ProdExceptVanishes(xs, i, j - 1, k);
    }
  }

  /** At the point it skips, the product is invertible. */
  lemma {:induction false} ProdExceptInvertible(xs: seq<int>, i: nat, j: nat, p: int)
    requires i < |xs| && j <= |xs| && IsPrime(p) && Distinct(xs, p)
    ensures !Cong(ProdExcept(xs, i, j, xs[i]), 0, p)
  {
    RemainderUnique(1, 0, 1, p);
    RemainderUnique(0, 0, 0, p);
    if j > 0 {
      ProdExceptInvertible(xs, i, j - 1, p);
      if j - 1 != i {
        var a, b := ProdExcept(xs, i, j - 1, xs[i]), xs[j - 1] - xs[i];
        if Cong(a * b, 0, p) {
          NoZeroDivisors(a, b, p);
          CongAdd(b, 0, xs[i], xs[i], p);
        }
      }
    }
  }

  /** One Lagrange weight: y_i divided by its denominator. */
  ghost function LagrangeWeight(xs: seq<int>, ys: seq<int>, i: nat, p: int): int
    requires i < |xs| == |ys| && IsPrime(p) && Distinct(xs, p)
  {
    ProdExceptInvertible(xs, i, |xs|, p);
    RemainderUnique(0, 0, 0, p);
    ys[i] * Inverse(ProdExcept(xs, i, |xs|, xs[i]) % p, p)
  }

  /** The sum of the first n Lagrange terms at x. */
  ghost function LagrangeSum(xs: seq<int>, ys: seq<int>, n: nat, x: int, p: int): int
    requires n <= |xs| == |ys| && IsPrime(p) && Distinct(xs, p)
  {
    if n == 0 then 0
    else LagrangeSum(xs, ys, n - 1, x, p)
         + LagrangeWeight(xs, ys, n - 1, p) * ProdExcept(xs, n - 1, |xs|, x)
  }

  /** The same sum as a polynomial of |xs| coefficients. */
  ghost function LagrangePoly(xs: seq<int>, ys: seq<int>, n: nat, p: int): (c: seq<int>)
    requires n <= |xs| == |ys| && IsPrime(p) && Distinct(xs, p)
    ensures |c| == |xs|
  {
    if n == 0 then seq(|xs|, _ => 0)
    else Add(LagrangePoly(xs, ys, n - 1, p),
             Scale(Basis(xs, n - 1, |xs|), LagrangeWeight(xs, ys, n - 1, p)))
  }

  lemma {:induction false} EvalZeros(n: nat, x: int)
    ensures Eval(seq(n, _ => 0), x) == 0
  {
    if n > 0 {
      EvalZeros(n - 1, x);
      assert seq(n, _ => 0)[1..] == seq(n - 1, _ => 0);
    }
  }

  lemma {:induction false} EvalLagrange(xs: seq<int>, ys: seq<int>, n: nat, x: int, p: int)
    requires n <= |xs| == |ys| && IsPrime(p) && Distinct(xs, p)
    ensures Eval(LagrangePoly(xs, ys, n, p), x) == LagrangeSum(xs, ys, n, x, p)
  {
    if n == 0 {
      EvalZeros(|xs|, x);
    } else {
      EvalLagrange(xs, ys, n - 1, x, p);
      var w := LagrangeWeight(xs, ys, n - 1, p);
      EvalAdd(LagrangePoly(xs, ys, n - 1, p), Scale(Basis(xs, n - 1, |xs|), w), x);
      EvalScale(Basis(xs, n - 1, |xs|), w, x);
      EvalBasis(xs, n - 1, |xs|, x);
    }
  }

  lemma WeightInverts(xs: seq<int>, ys: seq<int>, i: nat, p: int)
    requires i < |xs| == |ys| && IsPrime(p) && Distinct(xs, p)
    ensures Cong(LagrangeWeight(xs, ys, i, p) * ProdExcept(xs, i, |xs|, xs[i]), ys[i], p)
  {
    ProdExceptInvertible(xs, i, |xs|, p);
    RemainderUnique(0, 0, 0, p);
    RemainderUnique(1, 0, 1, p);
    DivideThenMultiply(ys[i], ProdExcept(xs, i, |xs|, xs[i]), p);
  }

  lemma DivideThenMultiply(y: int, d: int, p: int)
    requires IsPrime(p) && 0 < d % p
    ensures Cong(y * Inverse(d % p, p) * d, y, p)
  {
    RemainderUnique(1, 0, 1, p);
    var r := Inverse(d % p, p);
    ModCong(d, p);
    CongMul(d % p, d, r, r, p);
    CongMul(y, y, d * r, 1, p);
    Reassociate(y, r, d);
  }

  lemma Reassociate(y: int, r: int, d: int)
    ensures y * r * d == y * (d * r)
  {
  }

  /** At the point xs[k] the partial sums pick out ys[k]. */
  lemma {:induction false} LagrangeSumAtPoint(xs: seq<int>, ys: seq<int>, n: nat, k: nat, p: int)
    requires n <= |xs| == |ys| && k < |xs| && IsPrime(p) && Distinct(xs, p)
    ensures Cong(LagrangeSum(xs, ys, n, xs[k], p), if k < n then ys[k] else 0, p)
  {
    if n > 0 {
      LagrangeSumAtPoint(xs, ys, n - 1, k, p);
      var w := LagrangeWeight(xs, ys, n - 1, p);
      if n - 1 == k {
        WeightInverts(xs, ys, k, p);
        CongAdd(LagrangeSum(xs, ys, n - 1, xs[k], p), 0, w * ProdExcept(xs, k, |xs|, xs[k]), ys[k], p);
      } else {
        ProdExceptVanishes(xs, n - 1, |xs|, k);
        assert w * 0 == 0;
      }
    }
  }

  /** The Lagrange polynomial passes through every point. */
  lemma LagrangeInterpolates(xs: seq<int>, ys: seq<int>, p: int)
    requires |xs| == |ys| && IsPrime(p) && Distinct(xs, p)
    ensures Interpolates(LagrangePoly(xs, ys, |xs|, p), xs, ys, p)
  {
    forall k | 0 <= k < |xs|
      ensures Cong(Eval(LagrangePoly(xs, ys, |xs|, p), xs[k]), ys[k], p)
    {
      EvalLagrange(xs, ys, |xs|, xs[k], p);
      LagrangeSumAtPoint(xs, ys, |xs|, k, p);
    }
  }

  /** Whatever polynomial of |xs| coefficients passes through the points, the
      Lagrange sum at 0 is its constant term. */
  lemma LagrangeAtZero(c: seq<int>, xs: seq<int>, ys: seq<int>, p: int)
    requires |c| == |xs| == |ys| && IsPrime(p) && Distinct(xs, p)
    requires Interpolates(c, xs, ys, p)
    ensures Cong(LagrangeSum(xs, ys, |xs|, 0, p), Eval(c, 0), p)
  {
    var l := LagrangePoly(xs, ys, |xs|, p);
    LagrangeInterpolates(xs, ys, p);
    InterpolationUnique(l, c, xs, p);
    EvalLagrange(xs, ys, |xs|, 0, p);
    EvalAtZero(l);
    EvalAtZero(c);
  }

  // ---- reduced coefficients ----------------------------------------------

  ghost predicate Reduced(c: seq<int>, p: int) {
    forall k :: 0 <= k < |c| ==> 0 <= c[k] < p
  }

  function Reduce(c: seq<int>, p: int): (r: seq<int>)
    requires p > 0
    ensures |r| == |c| && Reduced(r, p)
  {
    seq(|c|, k requires 0 <= k < |c| => c[k] % p)
  }

  lemma {:induction false} EvalCong(a: seq<int>, b: seq<int>, x: int, p: int)
    requires p > 0 && AllCong(a, b, p)
    ensures Cong(Eval(a, x), Eval(b, x), p)
  {
    if |a| > 0 {
      forall k | 0 <= k < |a[1..]| ensures Cong(a[1..][k], b[1..][k], p) {
        assert Cong(a[k + 1], b[k + 1], p);
      }
      EvalCong(a[1..], b[1..], x, p);
      CongMul(x, x, Eval(a[1..], x), Eval(b[1..], x), p);
      CongAdd(a[0], b[0], x * Eval(a[1..], x), x * Eval(b[1..], x), p);
    }
  }

  lemma ReduceCong(c: seq<int>, p: int)
    requires p > 0
    ensures AllCong(Reduce(c, p), c, p)
  {
    forall k | 0 <= k < |c| ensures Cong(Reduce(c, p)[k], c[k], p) {
      ModCong(c[k], p);
    }
  }

  /** Through |xs| distinct points there is exactly one polynomial with |xs|
      coefficients in [0, p). */
  lemma InterpolationExistsUnique(xs: seq<int>, ys: seq<int>, p: int) returns (c: seq<int>)
    requires |xs| == |ys| && IsPrime(p) && Distinct(xs, p)
    ensures |c| == |xs| && Reduced(c, p) && Interpolates(c, xs, ys, p)
    ensures forall d: seq<int> | |d| == |xs| && Reduced(d, p) && Interpolates(d, xs, ys, p) :: d == c
  {
    var l := LagrangePoly(xs, ys, |xs|, p);
    c := Reduce(l, p);
    LagrangeInterpolates(xs, ys, p);
    ReduceCong(l, p);
    forall i | 0 <= i < |xs| ensures Cong(Eval(c, xs[i]), ys[i], p) {
      EvalCong(c, l, xs[i], p);
    }
    forall d: seq<int> | |d| == |xs| && Reduced(d, p) && Interpolates(d, xs, ys, p) ensures d == c {
      InterpolationUnique(d, c, xs, p);
      forall k | 0 <= k < |xs| ensures d[k] == c[k] {
        CongResidue(d[k], c[k], p);
      }
    }
  }
}
