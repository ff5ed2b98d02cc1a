/** The verifiable random function: pkg/wallets/vrf/vrf.go.

    The curve is a parameter: any group of prime order n whose finite points are
    pairs of coordinates below a prime p. Hash-to-curve, the challenge hash and
    the RFC 6979 nonce are parameters too; both sides are given the same ones. */
module Vrf {
  import opened Wrappers
  import opened ModArith

  const NONCE_ITERATION_LIMIT := 8

  datatype Point = Point(x: nat, y: nat)

  /** How the curve library writes the neutral element. It is not on the curve. */
  const INFINITY := Point(0, 0)

  datatype Curve = Curve(
    n: nat,
    p: nat,
    g: Point,
    onCurve: Point -> bool,
    add: (Point, Point) -> Point,
    mul: (int, Point) -> Point)

  // ---- the group -----------------------------------------------------------------

  ghost predicate InGroup(c: Curve, q: Point) {
    c.onCurve(q) || q == INFINITY
  }

  // The laws are instantiated by name only: the two markers below are their
  // triggers, so that a proof sees the instances it asks for and no others.

  predicate At(a: int, b: int, q: Point) { true }

  predicate Of(q: Point, r: Point, t: Point) { true }

  ghost predicate AbelianAt(c: Curve, q: Point, r: Point, t: Point) {
    && InGroup(c, c.add(q, r))
    && c.add(q, r) == c.add(r, q)
    && c.add(c.add(q, r), t) == c.add(q, c.add(r, t))
    && c.add(q, INFINITY) == q
  }

  ghost predicate ScalableAt(c: Curve, a: int, b: int, q: Point)
    requires c.n > 0
  {
    && InGroup(c, c.mul(a, q))
    && c.add(c.mul(a, q), c.mul(b, q)) == c.mul(a + b, q)
    && c.mul(a, c.mul(b, q)) == c.mul(a * b, q)
    && c.mul(1, q) == q && c.mul(0, q) == INFINITY && c.mul(c.n, q) == INFINITY
    && (c.onCurve(q) && c.mul(a, q) == INFINITY ==> a % c.n == 0)
  }

  ghost predicate Laws(c: Curve)
    requires c.n > 0
  {
    && (forall q, r, t {:trigger Of(q, r, t)} ::
          Of(q, r, t) && InGroup(c, q) && InGroup(c, r) && InGroup(c, t) ==> AbelianAt(c, q, r, t))
    && (forall a, b, q {:trigger At(a, b, q)} :: At(a, b, q) && InGroup(c, q) ==> ScalableAt(c, a, b, q))
  }

  /** An abelian group whose elements are the curve points and INFINITY, in which
      every curve point has the prime order n. */
  ghost predicate IsCurve(c: Curve) {
    && IsPrime(c.n) && IsPrime(c.p)
    && c.onCurve(c.g) && !c.onCurve(INFINITY)
    && Laws(c)
  }

  lemma MulSum(c: Curve, a: int, b: int, q: Point)
    requires IsCurve(c) && InGroup(c, q)
    ensures InGroup(c, c.mul(a, q))
    ensures c.add(c.mul(a, q), c.mul(b, q)) == c.mul(a + b, q)
  {
    assert At(a, b, q);
  }

  lemma MulProduct(c: Curve, a: int, b: int, q: Point)
    requires IsCurve(c) && InGroup(c, q)
    ensures c.mul(a, c.mul(b, q)) == c.mul(a * b, q)
  {
    assert At(a, b, q);
  }

  lemma MulUnits(c: Curve, q: Point)
    requires IsCurve(c) && InGroup(c, q)
    ensures c.mul(1, q) == q && c.mul(0, q) == INFINITY && c.mul(c.n, q) == INFINITY
  {
    assert At(0, 0, q);
  }

  lemma AddLaws(c: Curve, q: Point, r: Point, t: Point)
    requires IsCurve(c) && InGroup(c, q) && InGroup(c, r) && InGroup(c, t)
    ensures InGroup(c, c.add(q, r))
    ensures c.add(q, r) == c.add(r, q)
    ensures c.add(c.add(q, r), t) == c.add(q, c.add(r, t))
    ensures c.add(q, INFINITY) == q
  {
    assert Of(q, r, t);
  }

  /** Scalars only matter modulo the order. */
  lemma MulCong(c: Curve, a: int, b: int, q: Point)
    requires IsCurve(c) && InGroup(c, q) && Cong(a, b, c.n)
    ensures c.mul(a, q) == c.mul(b, q)
  {
    var k := CongWitness(a, b, c.n);
    MulUnits(c, q);
    MulSum(c, b, k * c.n, q);
    MulProduct(c, k, c.n, q);
    MulProduct(c, k, 0, q);
    assert k * 0 == 0;
    AddLaws(c, c.mul(b, q), INFINITY, INFINITY);
  }

  /** Equal multiples of a curve point have congruent scalars. */
  lemma MulInjective(c: Curve, a: int, b: int, q: Point)
    requires IsCurve(c) && c.onCurve(q) && c.mul(a, q) == c.mul(b, q)
    ensures Cong(a, b, c.n)
  {
    MulSum(c, a, -b, q);
    MulSum(c, b, -b, q);
    MulUnits(c, q);
    assert At(a - b, 0, q);
    RemainderUnique(0, 0, 0, c.n);
    CongAdd(a - b, 0, b, b, c.n);
  }

  /** A multiple of a curve point by a scalar in [1, n-1] is a curve point. */
  lemma MulOnCurve(c: Curve, a: int, q: Point)
    requires IsCurve(c) && c.onCurve(q) && 1 <= a < c.n
    ensures c.onCurve(c.mul(a, q))
  {
    RemainderUnique(a, 0, a, c.n);
    assert At(a, 0, q);
  }

  // ---- checked operations ------------------------------------------------------------

  /** toScalar or validateScalar, followed by ValidatePoint and the multiplication. */
  function ScalarMult(c: Curve, q: Point, k: int): (r: Result<Point>)
    ensures r.Ok? <==> c.onCurve(q) && 1 <= k < c.n
  {
    if !(1 <= k < c.n) then Err("scalar is not in range [0, N)")
    else if !c.onCurve(q) then Err("point not on curve")
    else Ok(c.mul(k, q))
  }

  function AddPoints(c: Curve, q: Point, r: Point): Result<Point> {
    if !c.onCurve(q) || !c.onCurve(r) then Err("point not on curve") else Ok(c.add(q, r))
  }

  datatype Proof = Proof(gamma: Point, c: int, s: int, u: Point, cGamma: Point, v: Point, zInv: int)

  /** HashToZn of the packed points G, h, pk, gamma, u, v. */
  type Challenge = (Point, Point, Point, Point, Point) -> nat

  ghost predicate ChallengeOk(c: Curve, hash: Challenge) {
    forall h, pk, gamma, u, v :: hash(h, pk, gamma, u, v) < c.n
  }

  /** The nonce of every iteration lies in [1, n-1]. */
  ghost predicate NoncesOk(c: Curve, nonce: nat -> nat) {
    forall i :: 1 <= nonce(i) < c.n
  }

  /** (a - b·c) mod n */
  function ScalarSubProduct(a: int, b: int, c: int, n: int): (r: nat)
    requires n > 0
    ensures r < n && Cong(r + b * c, a, n)
  {
    var r := AddMod(SubMod(0, MulMod(b, c, n), n), a, n);
    assert Cong(r + b * c, a, n) by { SubProductStep(a, b * c, MulMod(b, c, n), n); }
    r
  }

  lemma SubProductStep(a: int, bc: int, m: int, n: int)
    requires n > 0 && Cong(m, bc, n)
    ensures Cong(AddMod(SubMod(0, m, n), a, n) + bc, a, n)
  {
    var t := SubMod(0, m, n);
    CongAdd(t, -m, a, a, n);
    CongAdd(AddMod(t, a, n), a - m, m, bc, n);
    CongAdd(AddMod(t, a, n), a - m, bc, m, n);
  }

  // ---- proving --------------------------------------------------------------------------

  /** What one iteration of the prover computes before the ZInv test. */
  ghost predicate Attempt(c: Curve, sk: int, pk: Point, h: Point, k: int, hash: Challenge, pf: Proof) {
    && c.n > 0
    && pf.gamma == c.mul(sk, h) && pf.u == c.mul(k, c.g) && pf.v == c.mul(k, h)
    && pf.c == hash(h, pk, pf.gamma, pf.u, pf.v)
    && pf.s == ScalarSubProduct(k, sk, pf.c, c.n)
    && pf.cGamma == c.mul(pf.c, pf.gamma)
  }

  /** The iteration yields no proof because CGamma and V share their x-coordinate. */
  ghost predicate Skips(c: Curve, sk: int, pk: Point, h: Point, k: int, hash: Challenge) {
    exists pf: Proof :: Attempt(c, sk, pk, h, k, hash, pf) && pf.c != 0 && c.p > 0 && (pf.cGamma.x - pf.v.x) % c.p == 0
  }

  /** Exactly when: the nonce's challenge is not zero, and challenge times Gamma and nonce
      times h have the same x-coordinate modulo p. */
  lemma SkipsIff(c: Curve, sk: int, pk: Point, h: Point, k: int, hash: Challenge)
    requires c.n > 0
    ensures var gamma := c.mul(sk, h);
            var ch := hash(h, pk, gamma, c.mul(k, c.g), c.mul(k, h));
            Skips(c, sk, pk, h, k, hash) <==> ch != 0 && c.p > 0 && (c.mul(ch, gamma).x - c.mul(k, h).x) % c.p == 0
  {
    var gamma := c.mul(sk, h);
    var ch := hash(h, pk, gamma, c.mul(k, c.g), c.mul(k, h));
    var draft := Proof(gamma, ch, ScalarSubProduct(k, sk, ch, c.n), c.mul(k, c.g), c.mul(ch, gamma), c.mul(k, h), 0);
    assert Attempt(c, sk, pk, h, k, hash, draft);
  }

  /** The iteration yields a proof. */
  ghost predicate Yields(c: Curve, sk: int, pk: Point, h: Point, k: int, hash: Challenge) {
    var gamma := c.mul(sk, h);
    var ch := hash(h, pk, gamma, c.mul(k, c.g), c.mul(k, h));
    ch != 0 && c.p > 0 && (c.mul(ch, gamma).x - c.mul(k, h).x) % c.p != 0
  }

  /** A proof as an honest prover leaves it. */
  ghost predicate Honest(c: Curve, sk: int, pk: Point, h: Point, k: int, hash: Challenge, pf: Proof) {
    && Attempt(c, sk, pk, h, k, hash, pf) && 1 <= k < c.n && 1 <= sk < c.n
    && 1 <= pf.c < c.n
    && 0 < pf.zInv < c.p && (pf.zInv * ((pf.cGamma.x - pf.v.x) % c.p)) % c.p == 1
  }

  method VerifiableRandomness(c: Curve, sk: int, pk: Point, h: Option<Point>, nonce: nat -> nat, hash: Challenge)
    returns (r: Result<Proof>)
    requires IsCurve(c) && ChallengeOk(c, hash) && NoncesOk(c, nonce)
    requires h.Some? ==> c.onCurve(h.value)
    ensures r.Ok? ==>
      && c.onCurve(pk) && h.Some?
      && (exists i :: 0 <= i < NONCE_ITERATION_LIMIT
           && Honest(c, sk, pk, h.value, nonce(i), hash, r.value)
           && (forall j :: 0 <= j < i ==> Skips(c, sk, pk, h.value, nonce(j), hash)))
    ensures r.Err? ==>
      || !c.onCurve(pk) || h.None? || !(1 <= sk < c.n)
      || (exists i, pf :: 0 <= i < NONCE_ITERATION_LIMIT && Attempt(c, sk, pk, h.value, nonce(i), hash, pf) && pf.c == 0)
      || (forall i :: 0 <= i < NONCE_ITERATION_LIMIT ==> Skips(c, sk, pk, h.value, nonce(i), hash))
    ensures r.Ok? <==>
      && c.onCurve(pk) && h.Some? && 1 <= sk < c.n
      && exists i :: 0 <= i < 8 && Yields(c, sk, pk, h.value, nonce(i), hash)
                     && forall j :: 0 <= j < i ==> Skips(c, sk, pk, h.value, nonce(j), hash)
  {
    if !c.onCurve(pk) {
      return Err("point not on curve");
    }
    if h.None? {
      return Err("failed to hash to curve");
    }
    var gamma :- ScalarMult(c, h.value, sk);
    MulOnCurve(c, sk, h.value);
    for iteration := 0 to NONCE_ITERATION_LIMIT
      invariant forall j :: 0 <= j < iteration ==> Skips(c, sk, pk, h.value, nonce(j), hash)
    {
      var k := nonce(iteration);
      // The nonce is in range and both bases are on the curve, so neither can fail.
      var u := ScalarMult(c, c.g, k).value;
      var v := ScalarMult(c, h.value, k).value;
      var challenge := hash(h.value, pk, gamma, u, v);
      var s := ScalarSubProduct(k, sk, challenge, c.n);
      ghost var draft := Proof(gamma, challenge, s, u, c.mul(challenge, gamma), v, 0);
      assert Attempt(c, sk, pk, h.value, nonce(iteration), hash, draft);
      var cGamma :- ScalarMult(c, gamma, challenge);
      var denom := (cGamma.x - v.x) % c.p;
      if denom != 0 {
        var zInv := Inverse(denom, c.p);
        var pf := Proof(gamma, challenge, s, u, cGamma, v, zInv);
        InverseInRange(denom, zInv, c.p);
        assert Honest(c, sk, pk, h.value, nonce(iteration), hash, pf);
        return Ok(pf);
      }
    }
    return Err("proof generation failed: nonce iteration limit reached");
  }

  lemma InverseInRange(d: int, z: int, p: int)
    requires p >= 2 && 0 <= z < p && (d * z) % p == 1
    ensures z > 0 && (z * d) % p == 1
  {
  }

  // ---- verifying ---------------------------------------------------------------------------

  predicate ProofFormatOk(c: Curve, pf: Proof) {
    && c.onCurve(pf.gamma) && 1 <= pf.c < c.n && 1 <= pf.s < c.n
    && c.onCurve(pf.u) && c.onCurve(pf.cGamma) && c.onCurve(pf.v)
    && pf.zInv != 0 && pf.zInv < c.p
  }

  function VerifyRandomness(c: Curve, pf: Proof, pk: Point, h: Option<Point>, hash: Challenge): Result<()>
    requires c.p > 0
  {
    if !c.onCurve(pk) then Err("point not on curve")
    else if !ProofFormatOk(c, pf) then Err("proof format")
    else if h.None? then Err("failed to hash to curve")
    else if (pf.zInv * ((pf.cGamma.x - pf.v.x) % c.p)) % c.p != 1 then Err("proof verification failed: invalid ZInv")
    else
      var pkToC :- ScalarMult(c, pk, pf.c);
      var gToS :- ScalarMult(c, c.g, pf.s);
      var expectedU :- AddPoints(c, pkToC, gToS);
      if expectedU != pf.u then Err("proof verification failed: invalid U witness") else
      var expectedCGamma :- ScalarMult(c, pf.gamma, pf.c);
      if expectedCGamma != pf.cGamma then Err("proof verification failed: invalid CGamma witness") else
      var hToS :- ScalarMult(c, h.value, pf.s);
      var expectedV :- AddPoints(c, expectedCGamma, hToS);
      if expectedV != pf.v then Err("proof verification failed: invalid V witness")
      else if hash(h.value, pk, pf.gamma, pf.u, pf.v) != pf.c
      then Err("proof verification failed: challenge hash mismatch")
      else Ok(())
  }

  // ---- completeness --------------------------------------------------------------------------

  /** c·(sk·q) + s·q = k·q when s = k - sk·c. */
  lemma ResponseOpens(c: Curve, sk: int, k: int, ch: int, s: int, q: Point)
    requires IsCurve(c) && InGroup(c, q) && Cong(s + sk * ch, k, c.n)
    ensures c.add(c.mul(ch, c.mul(sk, q)), c.mul(s, q)) == c.mul(k, q)
  {
    MulProduct(c, ch, sk, q);
    MulSum(c, ch * sk, s, q);
    assert ch * sk + s == s + sk * ch;
    MulCong(c, s + sk * ch, k, q);
  }

  /** A zero response would make CGamma and V the same point, and the prover
      skips those: no proof it returns has one. */
  lemma ResponseNotZero(c: Curve, sk: int, pk: Point, h: Point, k: int, hash: Challenge, pf: Proof)
    requires IsCurve(c) && c.onCurve(h) && Honest(c, sk, pk, h, k, hash, pf)
    ensures 1 <= pf.s < c.n
  {
    if pf.s == 0 {
      ResponseOpens(c, sk, k, pf.c, pf.s, h);
      MulUnits(c, h);
      MulOnCurve(c, sk, h);
      MulOnCurve(c, pf.c, pf.gamma);
      AddLaws(c, pf.cGamma, INFINITY, INFINITY);
      RemainderUnique(0, 0, 0, c.p);
      assert false;
    }
  }

  /** For a consistent key pair every honest proof is accepted. */
  lemma Completeness(c: Curve, sk: int, pk: Point, h: Point, k: int, hash: Challenge, pf: Proof)
    requires IsCurve(c) && c.onCurve(h) && c.onCurve(pk) && pk == c.mul(sk, c.g)
    requires Honest(c, sk, pk, h, k, hash, pf)
    ensures VerifyRandomness(c, pf, pk, Some(h), hash).Ok?
  {
    ResponseNotZero(c, sk, pk, h, k, hash, pf);
    ResponseOpens(c, sk, k, pf.c, pf.s, c.g);
    ResponseOpens(c, sk, k, pf.c, pf.s, h);
    MulOnCurve(c, sk, h);
    MulOnCurve(c, k, c.g);
    MulOnCurve(c, k, h);
    MulOnCurve(c, pf.c, pf.gamma);
    MulOnCurve(c, pf.c, pk);
    MulOnCurve(c, pf.s, c.g);
    MulOnCurve(c, pf.s, h);
  }

  /** Prove, then verify with the same nonce: whatever is returned is accepted. */
  method ProveThenVerify(c: Curve, sk: int, pk: Point, h: Option<Point>, nonce: nat -> nat, hash: Challenge)
    returns (pf: Result<Proof>, accepted: bool)
    requires IsCurve(c) && ChallengeOk(c, hash) && NoncesOk(c, nonce)
    requires h.Some? ==> c.onCurve(h.value)
    requires pk == c.mul(sk, c.g)
    ensures accepted == pf.Ok?
    ensures pf.Ok? ==> VerifyRandomness(c, pf.value, pk, h, hash).Ok? && pf.value.gamma == c.mul(sk, h.value)
  {
    pf := VerifiableRandomness(c, sk, pk, h, nonce, hash);
    accepted := false;
    if pf.Ok? {
      ghost var i :| 0 <= i < NONCE_ITERATION_LIMIT && Honest(c, sk, pk, h.value, nonce(i), hash, pf.value);
      Completeness(c, sk, pk, h.value, nonce(i), hash, pf.value);
      accepted := VerifyRandomness(c, pf.value, pk, h, hash).Ok?;
    }
  }

  // ---- special soundness -----------------------------------------------------------------------

  /** The U, CGamma and V equations of the verifier. */
  ghost predicate Opens(c: Curve, pk: Point, h: Point, gamma: Point, u: Point, v: Point, ch: int, s: int) {
    && c.add(c.mul(ch, pk), c.mul(s, c.g)) == u
    && c.add(c.mul(ch, gamma), c.mul(s, h)) == v
  }

  /** What acceptance means: well-formed witnesses that satisfy the equations, under the
      challenge that the hash of the commitment gives. */
  lemma AcceptedIff(c: Curve, pf: Proof, pk: Point, h: Option<Point>, hash: Challenge)
    requires IsCurve(c)
    ensures VerifyRandomness(c, pf, pk, h, hash).Ok? <==>
      && c.onCurve(pk) && h.Some? && c.onCurve(h.value)
      && c.onCurve(pf.gamma) && c.onCurve(pf.u) && c.onCurve(pf.v) && c.onCurve(pf.cGamma)
      && 1 <= pf.c < c.n && 1 <= pf.s < c.n && pf.zInv != 0 && pf.zInv < c.p
      && c.add(c.mul(pf.c, pk), c.mul(pf.s, c.g)) == pf.u
      && c.add(c.mul(pf.c, pf.gamma), c.mul(pf.s, h.value)) == pf.v
      && pf.cGamma == c.mul(pf.c, pf.gamma)
      && (pf.zInv * ((pf.cGamma.x - pf.v.x) % c.p)) % c.p == 1
      && pf.c == hash(h.value, pk, pf.gamma, pf.u, pf.v)
  {
    if c.onCurve(pk) && h.Some? && c.onCurve(h.value) && ProofFormatOk(c, pf) {
      MulOnCurve(c, pf.c, pk);
      MulOnCurve(c, pf.c, pf.gamma);
      MulOnCurve(c, pf.s, c.g);
      MulOnCurve(c, pf.s, h.value);
    }
  }

  /** Two openings of one sum: the difference of the scalars relates the points. */
  lemma OpeningsDiffer(c: Curve, q: Point, r: Point, c1: int, s1: int, c2: int, s2: int)
    requires IsCurve(c) && InGroup(c, q) && InGroup(c, r)
    requires c.add(c.mul(c1, q), c.mul(s1, r)) == c.add(c.mul(c2, q), c.mul(s2, r))
    ensures c.mul(c1 - c2, q) == c.mul(s2 - s1, r)
  {
    var a1, b1, a2, b2 := c.mul(c1, q), c.mul(s1, r), c.mul(c2, q), c.mul(s2, r);
    var na, nb := c.mul(-c2, q), c.mul(-s1, r);
    MulUnits(c, q);
    MulUnits(c, r);
    MulSum(c, c1, c2, q);
    MulSum(c, c2, c1, q);
    MulSum(c, c1 - c2, 0, q);
    MulSum(c, -c2, c1, q);
    MulSum(c, -c2, c2, q);
    MulSum(c, s1, -s1, r);
    MulSum(c, s2, -s1, r);
    MulSum(c, -s1, 0, r);
    MulSum(c, s2 - s1, 0, r);
    // (na + (a1 + b1)) + nb, once with each opening
    calc {
      c.add(c.add(na, c.add(a1, b1)), nb);
      { Regroup(c, na, a1, b1, nb); }
      c.add(c.add(na, a1), c.add(b1, nb));
      c.add(c.mul(c1 - c2, q), INFINITY);
      { AddLaws(c, c.mul(c1 - c2, q), INFINITY, INFINITY); }
      c.mul(c1 - c2, q);
    }
    calc {
      c.add(c.add(na, c.add(a2, b2)), nb);
      { Regroup(c, na, a2, b2, nb); }
      c.add(c.add(na, a2), c.add(b2, nb));
      c.add(INFINITY, c.mul(s2 - s1, r));
      { AddLaws(c, c.mul(s2 - s1, r), INFINITY, INFINITY); }
      c.mul(s2 - s1, r);
    }
  }

  lemma Regroup(c: Curve, w: Point, x: Point, y: Point, z: Point)
    requires IsCurve(c) && InGroup(c, w) && InGroup(c, x) && InGroup(c, y) && InGroup(c, z)
    ensures c.add(c.add(w, c.add(x, y)), z) == c.add(c.add(w, x), c.add(y, z))
  {
    AddLaws(c, w, x, y);
    AddLaws(c, c.add(w, x), y, z);
  }

  /** If d·q = e·r and d is invertible then q = (e/d)·r. */
  lemma DivideScalar(c: Curve, q: Point, r: Point, d: int, e: int, inv: int)
    requires IsCurve(c) && InGroup(c, q) && InGroup(c, r) && c.mul(d, q) == c.mul(e, r) && Cong(d * inv, 1, c.n)
    ensures q == c.mul((inv * e) % c.n, r)
  {
    MulProduct(c, inv, d, q);
    MulProduct(c, inv, e, r);
    MulUnits(c, q);
    assert inv * d == d * inv;
    MulCong(c, d * inv, 1, q);
    ModCong(inv * e, c.n);
    MulCong(c, (inv * e) % c.n, inv * e, r);
  }

  /** Two openings with different challenges pin down one discrete logarithm that
      is both that of pk to the base G and that of Gamma to the base h. */
  lemma SpecialSoundness(c: Curve, pk: Point, h: Point, gamma: Point, u: Point, v: Point,
                         c1: int, s1: int, c2: int, s2: int) returns (x: int)
    requires IsCurve(c) && c.onCurve(pk) && c.onCurve(h) && c.onCurve(gamma)
    requires 1 <= c1 < c.n && 1 <= c2 < c.n && c1 != c2
    requires Opens(c, pk, h, gamma, u, v, c1, s1) && Opens(c, pk, h, gamma, u, v, c2, s2)
    ensures 0 <= x < c.n && pk == c.mul(x, c.g) && gamma == c.mul(x, h)
    ensures forall y :: 0 <= y < c.n && (pk == c.mul(y, c.g) || gamma == c.mul(y, h)) ==> y == x
  {
    OpeningsDiffer(c, pk, c.g, c1, s1, c2, s2);
    OpeningsDiffer(c, gamma, h, c1, s1, c2, s2);
    assert (c1 - c2) % c.n != 0 by {
      if (c1 - c2) % c.n == 0 {
        RemainderUnique(0, 0, 0, c.n);
        CongAdd(c1 - c2, 0, c2, c2, c.n);
        CongResidue(c1, c2, c.n);
      }
    }
    var inv := InverseExists(c1 - c2, c.n);
    x := (inv * (s2 - s1)) % c.n;
    DivideScalar(c, pk, c.g, c1 - c2, s2 - s1, inv);
    DivideScalar(c, gamma, h, c1 - c2, s2 - s1, inv);
    forall y | 0 <= y < c.n && (pk == c.mul(y, c.g) || gamma == c.mul(y, h)) ensures y == x {
      if pk == c.mul(y, c.g) {
        MulInjective(c, y, x, c.g);
      } else {
        MulInjective(c, y, x, h);
      }
      CongResidue(y, x, c.n);
    }
  }

  /** A Gamma other than sk·h can be accepted for at most one challenge value per
      commitment (U, V), under whatever challenge hash. */
  lemma WrongOutputOneChallenge(c: Curve, sk: int, pk: Point, h: Option<Point>, pf1: Proof, pf2: Proof,
                                hash1: Challenge, hash2: Challenge)
    requires IsCurve(c) && pk == c.mul(sk, c.g)
    requires VerifyRandomness(c, pf1, pk, h, hash1).Ok? && VerifyRandomness(c, pf2, pk, h, hash2).Ok?
    requires pf1.gamma == pf2.gamma && pf1.u == pf2.u && pf1.v == pf2.v
    requires h.Some? && pf1.gamma != c.mul(sk, h.value)
    ensures pf1.c == pf2.c
  {
    AcceptedIff(c, pf1, pk, h, hash1);
    AcceptedIff(c, pf2, pk, h, hash2);
    if pf1.c != pf2.c {
      var x := SpecialSoundness(c, pk, h.value, pf1.gamma, pf1.u, pf1.v, pf1.c, pf1.s, pf2.c, pf2.s);
      MulInjective(c, sk, x, c.g);
      MulCong(c, sk, x, h.value);
      assert false;
    }
  }

  // ---- the laws can be met ---------------------------------------------------------------------

  /** The integers modulo n, the point i·G written (i, 1): the laws above hold of it. */
  function ValueOf(q: Point): nat { q.x }

  function PointOf(i: nat): Point { if i == 0 then INFINITY else Point(i, 1) }

  function IntegersMod(n: nat, p: nat): Curve
    requires n > 1
  {
    Curve(n, p, Point(1, 1),
          (q: Point) => 1 <= q.x < n && q.y == 1,
          (q: Point, r: Point) => PointOf(AddMod(ValueOf(q), ValueOf(r), n)),
          (a: int, q: Point) => PointOf(MulMod(a, ValueOf(q), n)))
  }

  lemma IntegersModAdd(n: nat, p: nat, q: Point, r: Point, t: Point)
    requires IsPrime(n)
    requires var c := IntegersMod(n, p); InGroup(c, q) && InGroup(c, r) && InGroup(c, t)
    ensures AbelianAt(IntegersMod(n, p), q, r, t)
  {
    var x, y, z := q.x, r.x, t.x;
    CongAdd(AddMod(x, y, n), x + y, z, z, n);
    CongAdd(x, x, AddMod(y, z, n), y + z, n);
    CongResidue(AddMod(AddMod(x, y, n), z, n), AddMod(x, AddMod(y, z, n), n), n);
    CongResidue(AddMod(x, 0, n), x, n);
  }

  lemma IntegersModMul(n: nat, p: nat, a: int, b: int, q: Point)
    requires IsPrime(n) && InGroup(IntegersMod(n, p), q)
    ensures ScalableAt(IntegersMod(n, p), a, b, q)
  {
    var x := q.x;
    CongAdd(MulMod(a, x, n), a * x, MulMod(b, x, n), b * x, n);
    assert a * x + b * x == (a + b) * x;
    CongResidue(AddMod(MulMod(a, x, n), MulMod(b, x, n), n), MulMod(a + b, x, n), n);
    CongMul(a, a, MulMod(b, x, n), b * x, n);
    assert a * (b * x) == (a * b) * x;
    CongResidue(MulMod(a, MulMod(b, x, n), n), MulMod(a * b, x, n), n);
    assert 1 * x == x && 0 * x == 0;
    CongResidue(MulMod(1, x, n), x, n);
    CongResidue(MulMod(0, x, n), 0, n);
    assert n * x == 0 + x * n;
    CongFrom(n * x, 0, x, n);
    CongResidue(MulMod(n, x, n), 0, n);
    RemainderUnique(0, 0, 0, n);
    if 1 <= x && MulMod(a, x, n) == 0 {
      NoZeroDivisors(a, x, n);
      RemainderUnique(x, 0, x, n);
    }
  }

  lemma IntegersModIsCurve(n: nat, p: nat)
    requires IsPrime(n) && IsPrime(p)
    ensures IsCurve(IntegersMod(n, p))
  {
    var c := IntegersMod(n, p);
    forall q, r, t {:trigger Of(q, r, t)} | Of(q, r, t) && InGroup(c, q) && InGroup(c, r) && InGroup(c, t)
      ensures AbelianAt(c, q, r, t)
    {
      IntegersModAdd(n, p, q, r, t);
    }
    forall a, b, q {:trigger At(a, b, q)} | At(a, b, q) && InGroup(c, q) ensures ScalableAt(c, a, b, q) {
      IntegersModMul(n, p, a, b, q);
    }
  }
}
