/** What those learn of a private key who reach one threshold of its backup but not the
    other: SplitSecret and SplitToShamirShares together, as BackupWallet in
    internal/wallets/backup/backup.go uses them. */
module Privacy {
  import opened ModArith
  import opened Polynomial
  import opened Field
  import opened Shamir
  import opened SplitKey

  /** Everything random in the two parts: the first part of the key, and the higher
      coefficients of either polynomial. */
  datatype KeyDraws = KeyDraws(first: int, admin: seq<int>, provider: seq<int>)

  ghost predicate DrawsOk(d: KeyDraws, p: int, adminThreshold: nat, providerThreshold: nat) {
    && 0 <= d.first < p && Reduced(d.admin, p) && Reduced(d.provider, p)
    && |d.admin| + 1 == adminThreshold && |d.provider| + 1 == providerThreshold
  }

  /** The polynomial of the admins' part, and that of the providers' part. */
  function AdminPolynomial(secret: int, d: KeyDraws, p: int): seq<int>
    requires p > 0
  {
    [SplitValues(secret, [d.first], p)[0]] + d.admin
  }

  function ProviderPolynomial(secret: int, d: KeyDraws, p: int): seq<int>
    requires p > 0
  {
    [SplitValues(secret, [d.first], p)[1]] + d.provider
  }

  /** The draws succeed that a backup with these thresholds asks for. */
  ghost predicate DrawsSucceed(splitRng: Rng, adminRng: Rng, providerRng: Rng, ta: nat, tp: nat) {
    && splitRng(0).Some?
    && (forall i :: 1 <= i < ta ==> adminRng(i).Some?)
    && (forall i :: 1 <= i < tp ==> providerRng(i).Some?)
  }

  /** What they draw: each number once, and from its own source. */
  ghost function Drawn(splitRng: Rng, adminRng: Rng, providerRng: Rng, ta: nat, tp: nat): KeyDraws
    requires ta > 0 && tp > 0 && DrawsSucceed(splitRng, adminRng, providerRng, ta, tp)
  {
    KeyDraws(splitRng(0).value,
             seq(ta - 1, i requires 0 <= i < ta - 1 => adminRng(i + 1).value),
             seq(tp - 1, i requires 0 <= i < tp - 1 => providerRng(i + 1).value))
  }

  /** Draws from sources over the field are draws as the results below ask for. */
  lemma DrawnOk(splitRng: Rng, adminRng: Rng, providerRng: Rng, f: Field, ta: nat, tp: nat)
    requires RngOver(splitRng, f) && RngOver(adminRng, f) && RngOver(providerRng, f)
    requires ta > 0 && tp > 0 && DrawsSucceed(splitRng, adminRng, providerRng, ta, tp)
    ensures DrawsOk(Drawn(splitRng, adminRng, providerRng, ta, tp), f.modulus, ta, tp)
  {
  }

  /** The polynomials of the two halves are those of what was drawn. */
  lemma DrawnPolynomials(secret: nat, splitRng: Rng, adminRng: Rng, providerRng: Rng, p: int, ta: nat, tp: nat)
    requires p > 0 && ta > 0 && tp > 0 && DrawsSucceed(splitRng, adminRng, providerRng, ta, tp)
    ensures var v, d := SplitValues(secret, Draws(splitRng, 1), p), Drawn(splitRng, adminRng, providerRng, ta, tp);
            && v[0] >= 0 && Coefficients(v[0], adminRng, ta) == AdminPolynomial(secret, d, p)
            && v[1] >= 0 && Coefficients(v[1], providerRng, tp) == ProviderPolynomial(secret, d, p)
  {
    assert Draws(splitRng, 1) == [splitRng(0).value];
  }

  /** The shares in view lie on the polynomial. */
  ghost predicate Seen(f: Field, c: seq<int>, view: seq<Share>)
    requires f.modulus > 0
  {
    forall i :: 0 <= i < |view| ==> view[i] == ShareAt(f, c, view[i].x)
  }

  ghost predicate Sees(f: Field, secret: int, d: KeyDraws, admin: seq<Share>, provider: seq<Share>)
    requires f.modulus > 0
  {
    Seen(f, AdminPolynomial(secret, d, f.modulus), admin) && Seen(f, ProviderPolynomial(secret, d, f.modulus), provider)
  }

  /** Shares with different indices, none of them zero. */
  ghost predicate Proper(view: seq<Share>) {
    DistinctIndices(view) && forall i :: 0 <= i < |view| ==> view[i].x > 0
  }

  lemma SeenAreElements(f: Field, c: seq<int>, view: seq<Share>)
    requires Valid(f) && Seen(f, c, view)
    ensures forall i :: 0 <= i < |view| ==> |view[i].y| == f.size && Element(f, view[i].y).Ok?
  {
    forall i | 0 <= i < |view| ensures |view[i].y| == f.size && Element(f, view[i].y).Ok? {
      ElementOfBytes(f, Eval(c, view[i].x) % f.modulus);
    }
  }

  /** As many shares as coefficients determine the polynomial. */
  lemma SeenDetermines(f: Field, a: seq<int>, b: seq<int>, view: seq<Share>)
    requires Valid(f) && |a| == |b| <= |view| && DistinctIndices(view)
    requires Reduced(a, f.modulus) && Reduced(b, f.modulus) && Seen(f, a, view) && Seen(f, b, view)
    ensures a == b
  {
    var p, part := f.modulus, view[..|a|];
    var xs := Xs(part);
    IndicesDistinctModP(f, part);
    forall i | 0 <= i < |xs| ensures Cong(Eval(a, xs[i]), Eval(b, xs[i]), p) {
      assert part[i] == view[i];
      BytesInjective(f, Eval(a, view[i].x) % p, Eval(b, view[i].x) % p);
    }
    InterpolationUnique(a, b, xs, p);
    forall k | 0 <= k < |a| ensures a[k] == b[k] {
      assert Cong(a[k], b[k], p);
      CongResidue(a[k], b[k], p);
    }
  }

  /** The two parts of a secret determine one another. */
  lemma PartsDetermine(secret: int, x: int, y: int, p: int)
    requires p > 0 && 0 <= x < p && 0 <= y < p
    ensures SplitValues(secret, [x], p) == [x, SubMod(secret, x, p)]
    ensures SubMod(secret, x, p) == y <==> x == SubMod(secret, y, p)
  {
    SumOne(x);
    LastPartFits(x, y, 0, secret, p);
    if Cong(x, secret - y, p) {
      CongResidue(x, SubMod(secret, y, p), p);
    }
  }

  lemma Rejoined(c: seq<int>)
    requires |c| > 0
    ensures [c[0]] + c[1..] == c
  {
  }

  /** With the providers one share short. */
  lemma ProvidersShort(f: Field, ac: seq<int>, admin: seq<Share>, provider: seq<Share>, secret: nat) returns (d: KeyDraws)
    requires Valid(f) && secret < f.modulus && 1 <= |ac| <= |admin| && Reduced(ac, f.modulus)
    requires Seen(f, ac, admin) && Proper(admin) && Proper(provider)
    requires forall i :: 0 <= i < |provider| ==> |provider[i].y| == f.size && Element(f, provider[i].y).Ok?
    ensures DrawsOk(d, f.modulus, |ac|, |provider| + 1) && Sees(f, secret, d, admin, provider)
    ensures forall e :: DrawsOk(e, f.modulus, |ac|, |provider| + 1) && Sees(f, secret, e, admin, provider) ==> e == d
  {
    var p := f.modulus;
    var last := SubMod(secret, ac[0], p);
    PartsDetermine(secret, ac[0], last, p);
    var pc := ShamirPrivacy(f, provider, last);
    Rejoined(ac);
    Rejoined(pc);
    d := KeyDraws(ac[0], ac[1..], pc[1..]);
    forall e | DrawsOk(e, p, |ac|, |provider| + 1) && Sees(f, secret, e, admin, provider) ensures e == d {
      PartsDetermine(secret, e.first, last, p);
      var a, q := AdminPolynomial(secret, e, p), ProviderPolynomial(secret, e, p);
      SeenDetermines(f, a, ac, admin);
      assert a[1..] == e.admin && q[1..] == e.provider;
      assert Explains(f, q, provider, last);
    }
  }

  /** With the admins one share short. */
  lemma AdminsShort(f: Field, pc: seq<int>, admin: seq<Share>, provider: seq<Share>, secret: nat) returns (d: KeyDraws)
    requires Valid(f) && secret < f.modulus && 1 <= |pc| <= |provider| && Reduced(pc, f.modulus)
    requires Seen(f, pc, provider) && Proper(admin) && Proper(provider)
    requires forall i :: 0 <= i < |admin| ==> |admin[i].y| == f.size && Element(f, admin[i].y).Ok?
    ensures DrawsOk(d, f.modulus, |admin| + 1, |pc|) && Sees(f, secret, d, admin, provider)
    ensures forall e :: DrawsOk(e, f.modulus, |admin| + 1, |pc|) && Sees(f, secret, e, admin, provider) ==> e == d
  {
    var p := f.modulus;
    var first := SubMod(secret, pc[0], p);
    PartsDetermine(secret, first, pc[0], p);
    var ac := ShamirPrivacy(f, admin, first);
    Rejoined(ac);
    Rejoined(pc);
    d := KeyDraws(first, ac[1..], pc[1..]);
    forall e | DrawsOk(e, p, |admin| + 1, |pc|) && Sees(f, secret, e, admin, provider) ensures e == d {
      PartsDetermine(secret, e.first, pc[0], p);
      var a, q := AdminPolynomial(secret, e, p), ProviderPolynomial(secret, e, p);
      SeenDetermines(f, q, pc, provider);
      assert a[1..] == e.admin && q[1..] == e.provider;
      assert Explains(f, a, admin, first);
    }
  }

  /** Whoever sees as many shares of one part as its threshold, or all of them, and one less
      than the threshold of the other, knows nothing of the key: every candidate key is
      explained by exactly one choice of everything that was drawn. */
  lemma BackupPrivacy(f: Field, actual: nat, drawn: KeyDraws, ta: nat, tp: nat,
                      admin: seq<Share>, provider: seq<Share>, candidate: nat) returns (d: KeyDraws)
    requires Valid(f) && candidate < f.modulus
    requires DrawsOk(drawn, f.modulus, ta, tp) && Sees(f, actual, drawn, admin, provider) && Proper(admin) && Proper(provider)
    requires (|admin| >= ta && |provider| == tp - 1) || (|provider| >= tp && |admin| == ta - 1)
    ensures DrawsOk(d, f.modulus, ta, tp) && Sees(f, candidate, d, admin, provider)
    ensures forall e :: DrawsOk(e, f.modulus, ta, tp) && Sees(f, candidate, e, admin, provider) ==> e == d
  {
    var p := f.modulus;
    PartsDetermine(actual, drawn.first, 0, p);
    var ac, pc := AdminPolynomial(actual, drawn, p), ProviderPolynomial(actual, drawn, p);
    SeenAreElements(f, ac, admin);
    SeenAreElements(f, pc, provider);
    if |admin| >= ta && |provider| == tp - 1 {
      d := ProvidersShort(f, ac, admin, provider, candidate);
    } else {
      d := AdminsShort(f, pc, admin, provider, candidate);
    }
  }
}
