/** Congruence modulo m, primality and inverses: what the sharing field and the
    curve's scalar field need of the integers. */
module ModArith {

  /** `d` divides `n`. Named so that quantifiers have something to trigger on. */
  predicate Divides(d: int, n: int)
    requires d != 0
  {
    n % d == 0
  }

  ghost predicate IsPrime(p: int) {
    p >= 2 && forall d :: 2 <= d < p ==> !Divides(d, p)
  }

  /** a ≡ b (mod m). */
  predicate Cong(a: int, b: int, m: int)
    requires m > 0
  {
    a % m == b % m
  }

  lemma MultipleIsFar(m: int, d: int)
    requires m > 0
    ensures d >= 1 ==> m * d >= m
    ensures d <= -1 ==> m * d <= -m
  {
  }

  /** Quotient and remainder are unique. */
  lemma RemainderUnique(x: int, q: int, r: int, m: int)
    requires m > 0 && 0 <= r < m && x == q * m + r
    ensures x % m == r && x / m == q
  {
    var d := x / m - q;
    assert m * d == r - x % m by {
      assert x == m * (x / m) + x % m;
      assert m * d == m * (x / m) - m * q;
    }
    MultipleIsFar(m, d);
  }

  /** Differing by a multiple of m means being congruent. */
  lemma CongFrom(a: int, b: int, k: int, m: int)
    requires m > 0 && a == b + k * m
    ensures Cong(a, b, m)
  {
    assert a == (b / m + k) * m + b % m by {
      assert b == m * (b / m) + b % m;
      assert (b / m + k) * m == (b / m) * m + k * m;
    }
    RemainderUnique(a, b / m + k, b % m, m);
  }

  /** Being congruent means differing by a multiple of m. */
  lemma CongWitness(a: int, b: int, m: int) returns (k: int)
    requires m > 0 && Cong(a, b, m)
    ensures a == b + k * m
  {
    k := a / m - b / m;
    assert a == m * (a / m) + a % m;
    assert b == m * (b / m) + b % m;
    assert k * m == m * (a / m) - m * (b / m);
  }

  lemma ModCong(a: int, m: int)
    requires m > 0
    ensures Cong(a % m, a, m)
    ensures 0 <= a % m < m
  {
  }

  // The reduced operations of `bigmod.Nat`.

  function AddMod(a: int, b: int, m: int): (r: nat)
    requires m > 0
    ensures r < m && Cong(r, a + b, m)
  {
    ModCong(a + b, m);
    (a + b) % m
  }

  function SubMod(a: int, b: int, m: int): (r: nat)
    requires m > 0
    ensures r < m && Cong(r, a - b, m)
  {
    ModCong(a - b, m);
    (a - b) % m
  }

  function MulMod(a: int, b: int, m: int): (r: nat)
    requires m > 0
    ensures r < m && Cong(r, a * b, m)
  {
    ModCong(a * b, m);
    (a * b) % m
  }

  lemma CongAdd(a: int, b: int, c: int, d: int, m: int)
    requires m > 0 && Cong(a, b, m) && Cong(c, d, m)
    ensures Cong(a + c, b + d, m) && Cong(a - c, b - d, m)
  {
    var k := CongWitness(a, b, m);
    var l := CongWitness(c, d, m);
    assert k * m + l * m == (k + l) * m;
    assert k * m - l * m == (k - l) * m;
    CongFrom(a + c, b + d, k + l, m);
    CongFrom(a - c, b - d, k - l, m);
  }

  lemma CongMul(a: int, b: int, c: int, d: int, m: int)
    requires m > 0 && Cong(a, b, m) && Cong(c, d, m)
    ensures Cong(a * c, b * d, m)
  {
    var k := CongWitness(a, b, m);
    var l := CongWitness(c, d, m);
    MulDifference(a, b, c, d, k, l, m);
    CongFrom(a * c, b * d, a * l + k * d, m);
  }

  lemma MulDifference(a: int, b: int, c: int, d: int, k: int, l: int, m: int)
    requires a == b + k * m && c == d + l * m
    ensures a * c == b * d + (a * l + k * d) * m
  {
  }

  /** Residues that are congruent are equal. */
  lemma CongResidue(a: int, b: int, m: int)
    requires m > 0 && 0 <= a < m && 0 <= b < m && Cong(a, b, m)
    ensures a == b
  {
  }

  /** The inverse of a residue modulo a prime. `InverseVarTime` of the bigmod
      library and `ModInverse` of math/big are taken by this contract. */
  function Inverse(a: int, p: int): (r: int)
    requires IsPrime(p) && 0 < a < p
    ensures 0 <= r < p && (a * r) % p == 1
    decreases a
  {
    if a == 1 then
      RemainderUnique(1, 0, 1, p);
      1
    else
      assert !Divides(a, p);
      var y := Inverse(p % a, p);
      InverseStep(a, p, y);
      MulMod(-(p / a), y, p)
  }

  /** From an inverse y of p mod a to one of a. */
  lemma InverseStep(a: int, p: int, y: int)
    requires 0 < a < p && ((p % a) * y) % p == 1
    ensures (a * MulMod(-(p / a), y, p)) % p == 1
  {
    var q, s := p / a, p % a;
    assert p == a * q + s;
    BezoutStep(a, p, q, s, y);
    CongFrom(a * (-q * y), s * y, -y, p);
    CongMul(a, a, MulMod(-q, y, p), -q * y, p);
  }

  lemma BezoutStep(a: int, p: int, q: int, s: int, y: int)
    requires p == a * q + s
    ensures a * (-q * y) == s * y + (-y) * p
  {
  }

  /** An integer that p does not divide has an inverse modulo p. */
  lemma InverseExists(a: int, p: int) returns (r: int)
    requires IsPrime(p) && a % p != 0
    ensures 0 <= r < p && Cong(a * r, 1, p)
  {
    r := Inverse(a % p, p);
    ModCong(a, p);
    CongMul(a % p, a, r, r, p);
    RemainderUnique(1, 0, 1, p);
  }

  /** A prime field has no zero divisors. */
  lemma NoZeroDivisors(a: int, b: int, p: int)
    requires IsPrime(p) && Cong(a * b, 0, p)
    ensures Cong(a, 0, p) || Cong(b, 0, p)
  {
    RemainderUnique(0, 0, 0, p);
    if a % p != 0 {
      var r := InverseExists(a, p);
      CongMul(a * b, 0, r, r, p);
      CongMul(a * r, 1, b, b, p);
      assert (a * b) * r == (a * r) * b;
      assert 0 * r == 0;
    }
  }
}
