/** Shamir sharing over a prime field: internal/wallets/backup/shamir.go. */
module Shamir {
  import opened Wrappers
  import opened ModArith
  import opened Polynomial
  import opened Field

  /** One point on the sharing polynomial, its value in the field's fixed width. */
  datatype Share = Share(x: Uint64, y: seq<Byte>)

  /** The i-th draw of the random source: a field element, or a failure. */
  type Rng = nat -> Option<nat>

  ghost predicate RngOver(rng: Rng, f: Field) {
    forall i :: rng(i).Some? ==> rng(i).value < f.modulus
  }

  // ---- sharing ---------------------------------------------------------------

  /** The share of the polynomial `c` at index x. */
  function ShareAt(f: Field, c: seq<int>, x: Uint64): Share
    requires f.modulus > 0
  {
    Share(x, Bytes(f, Eval(c, x) % f.modulus))
  }

  /** The shares at indices 1..n. */
  function SharesOf(f: Field, c: seq<int>, n: nat): (s: seq<Share>)
    requires f.modulus > 0 && n < UINT64_LIMIT
    ensures |s| == n
  {
    seq(n, i requires 0 <= i < n => ShareAt(f, c, i + 1))
  }

  /** The secret followed by the draws 1..threshold-1. */
  function Coefficients(secret: nat, rng: Rng, threshold: nat): (c: seq<int>)
    requires threshold > 0
    requires forall i :: 1 <= i < threshold ==> rng(i).Some?
    ensures |c| == threshold && c[0] == secret
  {
    seq(threshold, i requires 0 <= i < threshold => if i == 0 then secret else rng(i).value)
  }

  /** Horner's rule with a reduction at every step. */
  method EvalPolynomial(f: Field, c: seq<int>, x: Uint64) returns (y: nat)
    requires Valid(f) && Reduced(c, f.modulus)
    ensures y == Eval(c, x) % f.modulus
  {
    var p := f.modulus;
    var xElem := ElementFromUint64(f, x);
    y := 0;
    RemainderUnique(0, 0, 0, p);
    for i := |c| downto 0
      invariant y == Eval(c[i..], x) % p
    {
      var e := Eval(c[i + 1..], x);
      HornerStep(y, e, c[i], x, p);
      y := MulMod(y, xElem, p);
      y := AddMod(y, c[i], p);
      assert c[i..][1..] == c[i + 1..];
    }
    assert c[0..] == c;
  }

  lemma HornerStep(y: nat, e: int, c: int, x: int, p: int)
    requires p > 0 && y == e % p
    ensures AddMod(MulMod(y, x, p), c, p) == (c + x * e) % p
  {
    ModCong(e, p);
    CongMul(y, e, x, x, p);
    CongAdd(MulMod(y, x, p), e * x, c, c, p);
    Commute(e, x);
  }

  method SplitToShamirShares(f: Field, val: seq<Byte>, numShares: Uint64, threshold: Uint64, rng: Rng)
    returns (r: Result<seq<Share>>)
    requires Valid(f) && RngOver(rng, f)
    ensures r.Ok? <==>
      && 1 <= threshold <= numShares
      && Element(f, val).Ok?
      && forall i :: 1 <= i < threshold ==> rng(i).Some?
    ensures r.Ok? ==>
      r.value == SharesOf(f, Coefficients(Element(f, val).value, rng, threshold), numShares)
    ensures r.Ok? ==>
      var c := Coefficients(Element(f, val).value, rng, threshold);
      && |c| == threshold && c[0] == Decode(val) && (forall k :: 1 <= k < threshold ==> Some(c[k]) == rng(k))
      && |r.value| == numShares
      && forall i :: 0 <= i < numShares ==>
           r.value[i].x == i + 1 && r.value[i].y == Encode(Eval(c, i + 1) % f.modulus, f.size)
  {
    if threshold > numShares {
      return Err("num shares smaller than threshold");
    }
    if threshold == 0 {
      return Err("threshold should be positive");
    }
    var secret :- Element(f, val);
    var polynomial: seq<int> := [secret];
    for i := 1 to threshold
      invariant |polynomial| == i && Reduced(polynomial, f.modulus)
      invariant polynomial[0] == secret
      invariant forall k :: 1 <= k < i ==> rng(k).Some? && polynomial[k] == rng(k).value
    {
      var draw := rng(i);
      if draw.None? {
        return Err("random source failed");
      }
      polynomial := polynomial + [draw.value];
    }
    assert polynomial == Coefficients(secret, rng, threshold);
    var shares: seq<Share> := [];
    for i := 0 to numShares
      invariant shares == SharesOf(f, polynomial, i)
    {
      var y := EvalPolynomial(f, polynomial, i + 1);
      shares := shares + [Share(i + 1, Bytes(f, y))];
    }
    return Ok(shares);
  }

  // ---- reconstruction ----------------------------------------------------------

  /** Every share value is the encoding of a field element. */
  ghost predicate Decodable(f: Field, shares: seq<Share>) {
    forall i :: 0 <= i < |shares| ==> Element(f, shares[i].y).Ok?
  }

  ghost predicate DistinctIndices(shares: seq<Share>) {
    forall i, j :: 0 <= i < j < |shares| ==> shares[i].x != shares[j].x
  }

  ghost function Xs(shares: seq<Share>): (xs: seq<int>)
    ensures |xs| == |shares|
  {
    seq(|shares|, i requires 0 <= i < |shares| => shares[i].x)
  }

  ghost function Ys(shares: seq<Share>): (ys: seq<int>)
    ensures |ys| == |shares|
  {
    seq(|shares|, i requires 0 <= i < |shares| => Decode(shares[i].y))
  }

  /** The polynomial `c` takes the value of every share. */
  ghost predicate PassesThrough(f: Field, c: seq<int>, shares: seq<Share>)
    requires f.modulus > 0
  {
    Interpolates(c, Xs(shares), Ys(shares), f.modulus)
  }

  /** Different 64-bit indices are different field elements. */
  lemma IndicesDistinctModP(f: Field, shares: seq<Share>)
    requires Valid(f)
    ensures DistinctIndices(shares) <==> Distinct(Xs(shares), f.modulus)
  {
    forall i, j | 0 <= i < j < |shares|
      ensures Cong(Xs(shares)[i], Xs(shares)[j], f.modulus) <==> shares[i].x == shares[j].x
    {
      if Cong(Xs(shares)[i], Xs(shares)[j], f.modulus) {
        CongResidue(shares[i].x, shares[j].x, f.modulus);
      }
    }
    if Distinct(Xs(shares), f.modulus) {
      forall i, j | 0 <= i < j < |shares| ensures shares[i].x != shares[j].x {
        assert !Cong(Xs(shares)[i], Xs(shares)[j], f.modulus);
      }
    }
  }

  /** Lagrange interpolation at zero, when it is defined. */
  ghost function Reconstruct(f: Field, shares: seq<Share>): (r: Option<seq<Byte>>)
    requires Valid(f)
    ensures r.Some? <==> Decodable(f, shares) && DistinctIndices(shares)
  {
    IndicesDistinctModP(f, shares);
    if Decodable(f, shares) && DistinctIndices(shares) then
      Some(Bytes(f, LagrangeSum(Xs(shares), Ys(shares), |shares|, 0, f.modulus) % f.modulus))
    else
      None
  }

  /** bigmod's InverseVarTime: defined exactly on the invertible residues. */
  function InverseVarTime(a: nat, p: nat): (r: Option<nat>)
    requires IsPrime(p) && a < p
    ensures r.None? <==> a == 0
    ensures r.Some? ==> r.value == Inverse(a, p)
  {
    if a == 0 then None else Some(Inverse(a, p))
  }

  /** The inner loop: numerator and denominator of the i-th basis polynomial at zero. */
  method BasisAtZero(f: Field, shares: seq<Share>, xs: seq<int>, i: nat) returns (r: Result<(nat, nat)>)
    requires Valid(f) && xs == Xs(shares) && i < |shares|
    ensures r.Ok? <==> forall l :: 0 <= l < |shares| && l != i ==> shares[i].x != shares[l].x
    ensures r.Ok? ==> r.value.0 == ProdExcept(xs, i, |xs|, 0) % f.modulus
    ensures r.Ok? ==> r.value.1 == ProdExcept(xs, i, |xs|, xs[i]) % f.modulus
  {
    var p := f.modulus;
    var numerator, denominator := 1, 1;
    RemainderUnique(1, 0, 1, p);
    for j := 0 to |shares|
      invariant forall l :: 0 <= l < j && l != i ==> shares[i].x != shares[l].x
      invariant numerator == ProdExcept(xs, i, j, 0) % p
      invariant denominator == ProdExcept(xs, i, j, xs[i]) % p
    {
      if i != j {
        if shares[j].x == shares[i].x {
          return Err("double share error");
        }
        var difference := ElementFromUint64(f, shares[j].x);
        MulStep(numerator, ProdExcept(xs, i, j, 0), xs[j], xs[j] - 0, p);
        MulStep(denominator, ProdExcept(xs, i, j, xs[i]), SubMod(difference, xs[i], p), xs[j] - xs[i], p);
        numerator := MulMod(numerator, xs[j], p);
        difference := SubMod(difference, xs[i], p);
        denominator := MulMod(denominator, difference, p);
      }
    }
    return Ok((numerator, denominator));
  }

  method CombineShamirShares(f: Field, shares: seq<Share>) returns (r: Result<seq<Byte>>)
    requires Valid(f)
    ensures r.Ok? <==> Decodable(f, shares) && DistinctIndices(shares)
    ensures r.Ok? ==> Reconstruct(f, shares) == Some(r.value)
  {
    var p := f.modulus;
    var result := 0;
    ghost var ys := Ys(shares);
    IndicesDistinctModP(f, shares);
    RemainderUnique(0, 0, 0, p);

    var xs: seq<int> := [];
    for i := 0 to |shares|
      invariant xs == Xs(shares)[..i]
    {
      var x := ElementFromUint64(f, shares[i].x);
      xs := xs + [x];
    }
    assert xs == Xs(shares);

    for i := 0 to |shares|
      invariant forall k :: 0 <= k < i ==> Element(f, shares[k].y).Ok?
      invariant forall k, l :: 0 <= k < i && 0 <= l < |shares| && k != l ==> shares[k].x != shares[l].x
      invariant 0 <= result < p
      invariant Distinct(xs, p) ==> result == LagrangeSum(xs, ys, i, 0, p) % p
    {
      var term := LagrangeTerm(f, shares, xs, i, result);
      if term.Err? {
        return Err(term.error);
      }
      result := AddMod(result, term.value, p);
    }
    assert DistinctIndices(shares);
    return Ok(Bytes(f, result));
  }

  /** The body of the outer loop: what the i-th share adds. */
  method LagrangeTerm(f: Field, shares: seq<Share>, xs: seq<int>, i: nat, ghost result: nat) returns (r: Result<nat>)
    requires Valid(f) && xs == Xs(shares) && i < |shares|
    ensures r.Err? ==> Element(f, shares[i].y).Err? || !Distinct(xs, f.modulus)
    ensures r.Ok? ==> Element(f, shares[i].y).Ok? && forall l :: 0 <= l < |shares| && l != i ==> shares[i].x != shares[l].x
    ensures var p, ys := f.modulus, Ys(shares);
            r.Ok? && Distinct(xs, p) && result == LagrangeSum(xs, ys, i, 0, p) % p ==>
              AddMod(result, r.value, p) == LagrangeSum(xs, ys, i + 1, 0, p) % p
  {
    var p := f.modulus;
    IndicesDistinctModP(f, shares);
    var y :- Element(f, shares[i].y);
    var quotient := BasisAtZero(f, shares, xs, i);
    if quotient.Err? {
      return Err(quotient.error);
    }
    var (numerator, denominator) := quotient.value;
    var inverse := InverseVarTime(denominator, p);
    if inverse.None? {
      assert !Distinct(xs, p) by {
        if Distinct(xs, p) {
          ProdExceptInvertible(xs, i, |xs|, p);
        }
      }
      return Err("double share error");
    }
    if Distinct(xs, p) && result == LagrangeSum(xs, Ys(shares), i, 0, p) % p {
      TermStep(result, y, numerator, inverse.value, LagrangeSum(xs, Ys(shares), i, 0, p), ProdExcept(xs, i, |xs|, 0), p);
    }
    return Ok(MulMod(MulMod(y, numerator, p), inverse.value, p));
  }

  lemma MulStep(a: nat, b: int, c: int, d: int, p: int)
    requires p > 0 && a == b % p && Cong(c, d, p)
    ensures MulMod(a, c, p) == (b * d) % p
  {
    ModCong(b, p);
    CongMul(a, b, c, d, p);
  }

  lemma TermStep(result: nat, y: nat, numerator: nat, inverse: nat, sum: int, prod: int, p: int)
    requires p > 0 && result == sum % p && numerator == prod % p
    ensures AddMod(result, MulMod(MulMod(y, numerator, p), inverse, p), p) == (sum + (y * inverse) * prod) % p
  {
    ModCong(sum, p);
    MulStep(numerator, prod, y, y, p);
    Commute(y, numerator);
    var t := MulMod(y, numerator, p);
    MulStep(t, prod * y, inverse, inverse, p);
    RotateProduct(prod, y, inverse);
    CongAdd(result, sum, MulMod(t, inverse, p), (y * inverse) * prod, p);
  }

  lemma RotateProduct(a: int, b: int, c: int)
    ensures (a * b) * c == (b * c) * a
  {
  }

  // ---- what the two together promise ---------------------------------------------

  /** Reconstruction returns the value at zero of whatever polynomial with one
      coefficient per share passes through the shares. There always is one. */
  lemma ReconstructIsValueAtZero(f: Field, shares: seq<Share>, c: seq<int>)
    requires Valid(f) && Decodable(f, shares) && DistinctIndices(shares)
    requires |c| == |shares| && PassesThrough(f, c, shares)
    ensures Reconstruct(f, shares) == Some(Bytes(f, Eval(c, 0) % f.modulus))
  {
    IndicesDistinctModP(f, shares);
    LagrangeAtZero(c, Xs(shares), Ys(shares), f.modulus);
  }

  /** Higher coefficients that are zero change nothing. */
  function Padded(c: seq<int>, n: nat): (d: seq<int>)
    requires |c| <= n
    ensures |d| == n && d[..|c|] == c
  {
    c + seq(n - |c|, _ => 0)
  }

  lemma {:induction false} EvalPadded(c: seq<int>, n: nat, x: int)
    requires |c| <= n
    ensures Eval(Padded(c, n), x) == Eval(c, x)
    decreases |c|
  {
    if |c| == 0 {
      EvalZeros(n, x);
      assert Padded(c, n) == seq(n, _ => 0);
    } else {
      EvalPadded(c[1..], n - 1, x);
      assert Padded(c, n)[1..] == Padded(c[1..], n - 1);
    }
  }

  /** Shares of a polynomial are on it, and on it padded. */
  lemma SharesOnPolynomial(f: Field, c: seq<int>, numShares: Uint64, picked: seq<Share>, n: nat)
    requires Valid(f) && |c| <= n && forall i :: 0 <= i < |picked| ==> picked[i] in SharesOf(f, c, numShares)
    ensures Decodable(f, picked) && PassesThrough(f, Padded(c, n), picked)
  {
    forall i | 0 <= i < |picked|
      ensures Element(f, picked[i].y).Ok? && Cong(Eval(Padded(c, n), picked[i].x), Decode(picked[i].y), f.modulus)
    {
      var k :| 0 <= k < numShares && SharesOf(f, c, numShares)[k] == picked[i];
      EvalPadded(c, n, picked[i].x);
      ModCong(Eval(c, picked[i].x), f.modulus);
      ElementOfBytes(f, Eval(c, picked[i].x) % f.modulus);
    }
  }

  /** Any shares with distinct indices, in any order, at least as many as the threshold,
      give back the secret. */
  lemma ShamirRoundTrip(f: Field, c: seq<int>, numShares: Uint64, picked: seq<Share>)
    requires Valid(f)
    requires 1 <= |c| <= |picked| && Reduced(c, f.modulus) && DistinctIndices(picked)
    requires forall i :: 0 <= i < |picked| ==> picked[i] in SharesOf(f, c, numShares)
    ensures Reconstruct(f, picked) == Some(Bytes(f, c[0]))
  {
    var d := Padded(c, |picked|);
    SharesOnPolynomial(f, c, numShares, picked, |picked|);
    ReconstructIsValueAtZero(f, picked, d);
    EvalPadded(c, |picked|, 0);
    EvalAtZero(c);
    RemainderUnique(c[0], 0, c[0], f.modulus);
  }

  /** One share less than the threshold interpolates to the secret exactly when the highest
      coefficient happened to be drawn as zero. */
  lemma OneShareShort(f: Field, c: seq<int>, numShares: Uint64, picked: seq<Share>)
    requires Valid(f) && |picked| + 1 == |c| && Reduced(c, f.modulus) && DistinctIndices(picked)
    requires forall i :: 0 <= i < |picked| ==> picked[i] in SharesOf(f, c, numShares)
    ensures Reconstruct(f, picked) == Some(Bytes(f, c[0])) <==> c[|c| - 1] == 0
  {
    SharesOnPolynomial(f, c, numShares, picked, |c|);
    assert Padded(c, |c|) == c;
    if c[|c| - 1] == 0 {
      ShorterPolynomial(f, c, numShares, picked);
    }
    if Reconstruct(f, picked) == Some(Bytes(f, c[0])) {
      HighestVanishes(f, c, picked);
    }
  }

  lemma ShorterPolynomial(f: Field, c: seq<int>, numShares: Uint64, picked: seq<Share>)
    requires Valid(f) && |picked| + 1 == |c| && Reduced(c, f.modulus) && DistinctIndices(picked) && c[|c| - 1] == 0
    requires forall i :: 0 <= i < |picked| ==> picked[i] in SharesOf(f, c, numShares)
    ensures Reconstruct(f, picked) == Some(Bytes(f, c[0]))
  {
    var d := c[..|c| - 1];
    assert c == Padded(d, |c|);
    SharesOnPolynomial(f, c, numShares, picked, |c|);
    assert Padded(c, |c|) == c;
    forall i | 0 <= i < |picked| ensures Cong(Eval(d, Xs(picked)[i]), Ys(picked)[i], f.modulus) {
      EvalPadded(d, |c|, picked[i].x);
      assert Cong(Eval(c, Xs(picked)[i]), Ys(picked)[i], f.modulus);
    }
    ReconstructIsValueAtZero(f, picked, d);
    EvalPadded(d, |c|, 0);
    EvalAtZero(c);
    RemainderUnique(c[0], 0, c[0], f.modulus);
  }

  lemma HighestVanishes(f: Field, c: seq<int>, picked: seq<Share>)
    requires Valid(f) && |picked| + 1 == |c| && Reduced(c, f.modulus) && DistinctIndices(picked) && Decodable(f, picked)
    requires PassesThrough(f, c, picked) && (forall i :: 0 <= i < |picked| ==> picked[i].x > 0)
    requires Reconstruct(f, picked) == Some(Bytes(f, c[0]))
    ensures c[|c| - 1] == 0
  {
    var p, n, xs, ys := f.modulus, |c|, Xs(picked), Ys(picked);
    IndicesDistinctModP(f, picked);
    var g := LagrangePoly(xs, ys, |xs|, p);
    LagrangeInterpolates(xs, ys, p);
    ReconstructIsValueAtZero(f, picked, g);
    BytesInjective(f, Eval(g, 0) % p, c[0]);
    var points, h := [0] + xs, Padded(g, n);
    PointsWithZero(f, picked);
    forall i | 0 <= i < n ensures Cong(Eval(h, points[i]), Eval(c, points[i]), p) {
      EvalPadded(g, n, points[i]);
      if i == 0 {
        EvalAtZero(c);
        RemainderUnique(c[0], 0, c[0], p);
      } else {
        assert Cong(Eval(g, xs[i - 1]), ys[i - 1], p) && Cong(Eval(c, xs[i - 1]), ys[i - 1], p);
      }
    }
    InterpolationUnique(h, c, points, p);
    assert Cong(h[n - 1], c[n - 1], p);
    CongResidue(0, c[n - 1], p);
  }

  /** Zero is none of the indices, modulo p either. */
  lemma PointsWithZero(f: Field, held: seq<Share>)
    requires Valid(f) && DistinctIndices(held) && forall i :: 0 <= i < |held| ==> held[i].x > 0
    ensures Distinct([0] + Xs(held), f.modulus)
  {
    var p, xs := f.modulus, [0] + Xs(held);
    IndicesDistinctModP(f, held);
    forall i, j | 0 <= i < j < |xs| ensures !Cong(xs[i], xs[j], p) {
      if i == 0 {
        RemainderUnique(0, 0, 0, p);
        RemainderUnique(xs[j], 0, xs[j], p);
        assert xs[j] == held[j - 1].x;
      } else {
        assert !Cong(Xs(held)[i - 1], Xs(held)[j - 1], p);
      }
    }
  }

  /** Fewer shares than the threshold say nothing: with any threshold - 1 shares
      in hand, every candidate secret is explained by exactly one choice of the
      coefficients `SplitToShamirShares` draws. */
  lemma ShamirPrivacy(f: Field, held: seq<Share>, secret: nat) returns (c: seq<int>)
    requires Valid(f) && secret < f.modulus
    requires DistinctIndices(held)
    requires forall i :: 0 <= i < |held| ==> held[i].x > 0
    requires forall i :: 0 <= i < |held| ==> |held[i].y| == f.size && Element(f, held[i].y).Ok?
    ensures Explains(f, c, held, secret)
    ensures forall d: seq<int> | Explains(f, d, held, secret) :: d == c
  {
    var p := f.modulus;
    var xs, ys := [0] + Xs(held), [secret] + Ys(held);
    PointsWithZero(f, held);
    c := InterpolationExistsUnique(xs, ys, p);
    assert Explains(f, c, held, secret) by { ExplainsIffInterpolates(f, c, held, secret); }
    forall d: seq<int> | Explains(f, d, held, secret) ensures d == c {
      ExplainsIffInterpolates(f, d, held, secret);
    }
  }

  /** `c` is a coefficient vector that shares `secret` and yields every held share. */
  ghost predicate Explains(f: Field, c: seq<int>, held: seq<Share>, secret: nat)
    requires f.modulus > 0
  {
    && |c| == |held| + 1
    && Reduced(c, f.modulus)
    && c[0] == secret
    && forall i :: 0 <= i < |held| ==> held[i] == ShareAt(f, c, held[i].x)
  }

  lemma ExplainsIffInterpolates(f: Field, c: seq<int>, held: seq<Share>, secret: nat)
    requires Valid(f) && secret < f.modulus
    requires forall i :: 0 <= i < |held| ==> |held[i].y| == f.size && Element(f, held[i].y).Ok?
    ensures Explains(f, c, held, secret) <==>
      |c| == |held| + 1 && Reduced(c, f.modulus) && Interpolates(c, [0] + Xs(held), [secret] + Ys(held), f.modulus)
  {
    var p, xs, ys := f.modulus, [0] + Xs(held), [secret] + Ys(held);
    if |c| == |held| + 1 && Reduced(c, p) {
      EvalAtZero(c);
      assert Cong(Eval(c, xs[0]), ys[0], p) <==> c[0] == secret by {
        if Cong(c[0], secret, p) {
          CongResidue(c[0], secret, p);
        }
      }
      forall i | 0 <= i < |held|
        ensures Cong(Eval(c, xs[i + 1]), ys[i + 1], p) <==> held[i] == ShareAt(f, c, held[i].x)
      {
        ShareMatches(f, c, held[i]);
      }
      if Explains(f, c, held, secret) {
        forall i | 0 <= i < |xs| ensures Cong(Eval(c, xs[i]), ys[i], p) {
          if i > 0 {
            assert held[i - 1] == ShareAt(f, c, held[i - 1].x);
          }
        }
      }
      if Interpolates(c, xs, ys, p) {
        forall i | 0 <= i < |held| ensures held[i] == ShareAt(f, c, held[i].x) {
          assert Cong(Eval(c, xs[i + 1]), ys[i + 1], p);
        }
      }
    }
  }

  lemma ShareMatches(f: Field, c: seq<int>, s: Share)
    requires Valid(f) && |s.y| == f.size && Element(f, s.y).Ok?
    ensures Cong(Eval(c, s.x), Decode(s.y), f.modulus) <==> s == ShareAt(f, c, s.x)
  {
    var p, v := f.modulus, Eval(c, s.x);
    ModCong(v, p);
    EncodeDecode(s.y);
    DecodeEncode(v % p, f.size);
    if Cong(v, Decode(s.y), p) {
      CongResidue(v % p, Decode(s.y), p);
    }
  }
}
