/** Additive splitting of a secret: internal/wallets/backup/split_key.go. */
module SplitKey {
  import opened Wrappers
  import opened ModArith
  import opened Polynomial
  import opened Field
  import opened Shamir

  function Sum(v: seq<int>): int {
    if |v| == 0 then 0 else Sum(v[..|v| - 1]) + v[|v| - 1]
  }

  lemma {:induction false} SumAppend(a: seq<int>, b: seq<int>)
    ensures Sum(a + b) == Sum(a) + Sum(b)
  {
    if |b| == 0 {
      assert a + b == a;
    } else {
      SumAppend(a, b[..|b| - 1]);
      assert (a + b)[..|a + b| - 1] == a + b[..|b| - 1];
    }
  }

  /** The draws of the first n-1 parts. */
  function Draws(rng: Rng, n: nat): (d: seq<int>)
    requires forall i :: 0 <= i < n ==> rng(i).Some?
    ensures |d| == n
  {
    seq(n, i requires 0 <= i < n => rng(i).value)
  }

  /** The drawn parts and the last one, which makes up the difference. */
  function SplitValues(secret: int, draws: seq<int>, p: int): (v: seq<int>)
    requires p > 0
    ensures |v| == |draws| + 1
  {
    draws + [SubMod(secret, Sum(draws), p)]
  }

  function EncodeAll(f: Field, v: seq<int>): (b: seq<seq<Byte>>)
    requires Reduced(v, f.modulus)
    ensures |b| == |v|
  {
    seq(|v|, i requires 0 <= i < |v| => Bytes(f, v[i]))
  }

  /** The loop that draws all parts but the last and adds them up. */
  method DrawParts(f: Field, n: nat, rng: Rng) returns (r: Result<(seq<seq<Byte>>, nat)>)
    requires Valid(f) && RngOver(rng, f)
    ensures r.Ok? <==> forall i :: 0 <= i < n ==> rng(i).Some?
    ensures r.Ok? ==>
      && Reduced(Draws(rng, n), f.modulus) && r.value.0 == EncodeAll(f, Draws(rng, n))
      && r.value.1 < f.modulus && Cong(r.value.1, Sum(Draws(rng, n)), f.modulus)
  {
    var p := f.modulus;
    var parts: seq<seq<Byte>> := [];
    var sum: nat := 0;
    RemainderUnique(0, 0, 0, p);
    for i := 0 to n
      invariant forall k :: 0 <= k < i ==> rng(k).Some?
      invariant Reduced(Draws(rng, i), p) && parts == EncodeAll(f, Draws(rng, i))
      invariant sum < p && Cong(sum, Sum(Draws(rng, i)), p)
    {
      var part := rng(i);
      if part.None? {
        return Err("random source failed");
      }
      parts := parts + [Bytes(f, part.value)];
      assert Draws(rng, i + 1)[..i] == Draws(rng, i);
      CongAdd(sum, Sum(Draws(rng, i)), part.value, part.value, p);
      sum := AddMod(sum, part.value, p);
    }
    return Ok((parts, sum));
  }

  /** The last part, from a sum that was reduced at every step. */
  lemma LastPart(secret: nat, sum: nat, draws: seq<int>, p: int)
    requires p > 0 && secret < p && Cong(sum, Sum(draws), p)
    ensures SubMod(AddMod(0, secret, p), sum, p) == SubMod(secret, Sum(draws), p)
  {
    RemainderUnique(secret, 0, secret, p);
    CongAdd(secret, secret, sum, Sum(draws), p);
    CongResidue(SubMod(secret, sum, p), SubMod(secret, Sum(draws), p), p);
  }

  method SplitSecret(f: Field, secret: seq<Byte>, n: int, rng: Rng) returns (r: Result<seq<seq<Byte>>>)
    requires Valid(f) && RngOver(rng, f)
    ensures r.Ok? <==>
      && n >= 2
      && |secret| == f.secretSize
      && Decode(secret) < f.modulus
      && forall i :: 0 <= i < n - 1 ==> rng(i).Some?
    ensures r.Ok? ==>
      && Reduced(SplitValues(Decode(secret), Draws(rng, n - 1), f.modulus), f.modulus)
      && r.value == EncodeAll(f, SplitValues(Decode(secret), Draws(rng, n - 1), f.modulus))
    ensures r.Ok? ==>
      && |r.value| == n && (forall i :: 0 <= i < n - 1 ==> r.value[i] == Encode(rng(i).value, f.size))
      && Cong(Sum(DecodeAll(r.value)), Decode(secret), f.modulus)
  {
    if n < 2 {
      return Err("number of splits too low");
    }
    if |secret| != f.secretSize {
      return Err("secret does not have the width the field shares");
    }
    var p := f.modulus;
    var secretElem :- Element(f, secret);
    var drawn := DrawParts(f, n - 1, rng);
    if drawn.Err? {
      return Err(drawn.error);
    }
    var (parts, sum) := drawn.value;
    var last := AddMod(0, secretElem, p);
    last := SubMod(last, sum, p);
    LastPart(secretElem, sum, Draws(rng, n - 1), p);
    parts := parts + [Bytes(f, last)];
    PartsAddUp(f, Decode(secret), rng, n, parts);
    return Ok(parts);
  }

  /** All parts but the last are the draws, and all together add up to the secret. */
  lemma PartsAddUp(f: Field, secret: nat, rng: Rng, n: int, parts: seq<seq<Byte>>)
    requires Valid(f) && n >= 1 && (forall i :: 0 <= i < n - 1 ==> rng(i).Some?)
    requires Reduced(SplitValues(secret, Draws(rng, n - 1), f.modulus), f.modulus)
    requires parts == EncodeAll(f, SplitValues(secret, Draws(rng, n - 1), f.modulus))
    ensures |parts| == n && forall i :: 0 <= i < n - 1 ==> rng(i).value >= 0 && parts[i] == Encode(rng(i).value, f.size)
    ensures Cong(Sum(DecodeAll(parts)), secret, f.modulus)
  {
    var v := SplitValues(secret, Draws(rng, n - 1), f.modulus);
    DecodeAllEncoded(f, v);
    SplitSums(secret, Draws(rng, n - 1), f.modulus);
    forall i | 0 <= i < n - 1 ensures parts[i] == Encode(rng(i).value, f.size) {
      assert v[i] == rng(i).value;
    }
  }

  /** What JoinSecret returns: the sum of the parts at secret width. */
  function Join(f: Field, parts: seq<seq<Byte>>): (r: Option<seq<Byte>>)
    requires f.modulus > 0
  {
    if |parts| > 0 && forall i :: 0 <= i < |parts| ==> Element(f, parts[i]).Ok? then
      var r := SecretOf(f, Sum(DecodeAll(parts)) % f.modulus);
      if r.Ok? then Some(r.value) else None
    else
      None
  }

  function DecodeAll(parts: seq<seq<Byte>>): (v: seq<int>)
    ensures |v| == |parts|
  {
    seq(|parts|, i requires 0 <= i < |parts| => Decode(parts[i]))
  }

  method JoinSecret(f: Field, parts: seq<seq<Byte>>) returns (r: Result<seq<Byte>>)
    requires Valid(f)
    ensures r.Ok? <==> Join(f, parts).Some?
    ensures r.Ok? ==> Join(f, parts) == Some(r.value)
    ensures r.Ok? <==>
      && |parts| > 0 && (forall i :: 0 <= i < |parts| ==> |parts[i]| <= f.size && Decode(parts[i]) < f.modulus)
      && Sum(DecodeAll(parts)) % f.modulus < Pow256(f.secretSize)
    ensures r.Ok? ==> |r.value| == f.secretSize && Decode(r.value) == Sum(DecodeAll(parts)) % f.modulus
  {
    if |parts| == 0 {
      return Err("no parts");
    }
    var p := f.modulus;
    var sum: nat := 0;
    RemainderUnique(0, 0, 0, p);
    for i := 0 to |parts|
      invariant forall k :: 0 <= k < i ==> Element(f, parts[k]).Ok?
      invariant sum == Sum(DecodeAll(parts[..i])) % p
    {
      var elem :- Element(f, parts[i]);
      var before := Sum(DecodeAll(parts[..i]));
      assert DecodeAll(parts[..i + 1])[..i] == DecodeAll(parts[..i]);
      ModCong(before, p);
      CongAdd(sum, before, elem, elem, p);
      sum := AddMod(sum, elem, p);
    }
    assert parts[..|parts|] == parts;
    r := SecretBytes(f, sum);
  }

  // ---- what the two together promise -----------------------------------------

  /** The parts add up to the secret. */
  lemma SplitSums(secret: int, draws: seq<int>, p: int)
    requires p > 0
    ensures Cong(Sum(SplitValues(secret, draws, p)), secret, p)
  {
    var v := SplitValues(secret, draws, p);
    assert v[..|v| - 1] == draws;
    CongAdd(v[|v| - 1], secret - Sum(draws), Sum(draws), Sum(draws), p);
  }

  /** Joining serialised elements adds them up. */
  lemma JoinOfEncoded(f: Field, v: seq<int>)
    requires Valid(f) && |v| > 0 && Reduced(v, f.modulus)
    ensures var s := SecretOf(f, Sum(v) % f.modulus);
            Join(f, EncodeAll(f, v)) == if s.Ok? then Some(s.value) else None
  {
    DecodeAllEncoded(f, v);
  }

  lemma DecodeAllEncoded(f: Field, v: seq<int>)
    requires Valid(f) && Reduced(v, f.modulus)
    ensures forall i :: 0 <= i < |v| ==> Element(f, EncodeAll(f, v)[i]) == Ok(v[i])
    ensures DecodeAll(EncodeAll(f, v)) == v
  {
    var parts := EncodeAll(f, v);
    forall i | 0 <= i < |v| ensures Element(f, parts[i]) == Ok(v[i]) {
      ElementOfBytes(f, v[i]);
    }
    assert DecodeAll(parts) == v;
  }

  /** Joining what was split returns the secret byte for byte, for every number
      of parts and every draw, also when elements are wider than secrets. */
  lemma AdditiveRoundTrip(f: Field, secret: seq<Byte>, draws: seq<int>)
    requires Valid(f) && |secret| == f.secretSize && Decode(secret) < f.modulus
    requires Reduced(draws, f.modulus)
    ensures Reduced(SplitValues(Decode(secret), draws, f.modulus), f.modulus)
    ensures Join(f, EncodeAll(f, SplitValues(Decode(secret), draws, f.modulus))) == Some(secret)
  {
    var v := SplitValues(Decode(secret), draws, f.modulus);
    JoinOfEncoded(f, v);
    SplitSums(Decode(secret), draws, f.modulus);
    RemainderUnique(Decode(secret), 0, Decode(secret), f.modulus);
    DecodeBound(secret);
    EncodeDecode(secret);
  }

  /** The parts `v` and `w` agree everywhere except perhaps at k. */
  ghost predicate AgreeExceptAt(v: seq<int>, w: seq<int>, k: nat) {
    |v| == |w| && forall i :: 0 <= i < |v| && i != k ==> v[i] == w[i]
  }

  /** All parts but one say nothing about the secret: whichever part k is
      missing, every secret is explained by exactly one vector of draws. */
  lemma AdditivePrivacy(parts: seq<int>, k: nat, secret: int, p: int) returns (draws: seq<int>)
    requires p > 0 && k < |parts| && |parts| >= 2 && Reduced(parts, p) && 0 <= secret < p
    ensures |draws| == |parts| - 1 && Reduced(draws, p)
    ensures AgreeExceptAt(SplitValues(secret, draws, p), parts, k)
    ensures forall d: seq<int> | |d| == |parts| - 1 && Reduced(d, p)
              && AgreeExceptAt(SplitValues(secret, d, p), parts, k) :: d == draws
  {
    var n := |parts| - 1;
    if k == n {
      draws := parts[..n];
      forall d: seq<int> | |d| == n && AgreeExceptAt(SplitValues(secret, d, p), parts, k) ensures d == draws {
        assert forall i :: 0 <= i < n ==> SplitValues(secret, d, p)[i] == d[i] == parts[i];
      }
    } else {
      // The missing draw is what the secret leaves after the other parts.
      var x := SubMod(secret, Sum(parts[..k]) + Sum(parts[k + 1..]), p);
      draws := parts[..k] + [x] + parts[k + 1..n];
      assert parts[..n][k := x] == draws;
      MissingPart(parts, k, draws, secret, p);
      forall d: seq<int> | |d| == n && Reduced(d, p) && AgreeExceptAt(SplitValues(secret, d, p), parts, k)
        ensures d == draws
      {
        assert forall i :: 0 <= i < n ==> SplitValues(secret, d, p)[i] == d[i];
        MissingPart(parts, k, d, secret, p);
        CongResidue(d[k], x, p);
        assert forall i :: 0 <= i < n ==> d[i] == draws[i];
      }
    }
  }

  /** With a drawn part missing, the last part fits exactly when the missing one
      is congruent to the secret minus the others. */
  lemma MissingPart(parts: seq<int>, k: nat, d: seq<int>, secret: int, p: int)
    requires p > 0 && k < |parts| - 1 == |d| && Reduced(parts, p)
    requires forall i :: 0 <= i < |d| && i != k ==> d[i] == parts[i]
    ensures SubMod(secret, Sum(d), p) == parts[|d|] <==>
      Cong(d[k], secret - (Sum(parts[..k]) + Sum(parts[k + 1..])), p)
  {
    var rest := SumAround(parts, k, d);
    LastPartFits(d[k], parts[|d|], rest, secret, p);
  }

  lemma SumOne(x: int)
    ensures Sum([x]) == x
  {
  }

  lemma SumAround(parts: seq<int>, k: nat, d: seq<int>) returns (rest: int)
    requires k < |parts| - 1 == |d|
    requires forall i :: 0 <= i < |d| && i != k ==> d[i] == parts[i]
    ensures Sum(d) == rest + d[k]
    ensures Sum(parts[..k]) + Sum(parts[k + 1..]) == rest + parts[|d|]
  {
    var n := |d|;
    rest := Sum(parts[..k]) + Sum(parts[k + 1..n]);
    assert d == (parts[..k] + [d[k]]) + parts[k + 1..n];
    SumAppend(parts[..k] + [d[k]], parts[k + 1..n]);
    SumAppend(parts[..k], [d[k]]);
    SumOne(d[k]);
    assert parts[k + 1..] == parts[k + 1..n] + [parts[n]];
    SumAppend(parts[k + 1..n], [parts[n]]);
    SumOne(parts[n]);
  }

  lemma LastPartFits(x: int, last: int, rest: int, secret: int, p: int)
    requires p > 0 && 0 <= last < p
    ensures SubMod(secret, rest + x, p) == last <==> Cong(x, secret - (rest + last), p)
  {
    if SubMod(secret, rest + x, p) == last {
      CongAdd(last, secret - (rest + x), x - last, x - last, p);
    }
    if Cong(x, secret - (rest + last), p) {
      CongAdd(x, secret - (rest + last), last - x, last - x, p);
      CongResidue(SubMod(secret, rest + x, p), last, p);
    }
  }
}
