/** Normalising voter weights to a fixed number of shares:
    weightsNormalization in internal/wallets/backup/backup.go. */
module Weights {
  import opened Wrappers

  const UINT16_LIMIT: nat := 0x1_0000

  type Uint16 = n: int | 0 <= n < UINT16_LIMIT

  function Total(w: seq<Uint16>): nat {
    if |w| == 0 then 0 else Total(w[..|w| - 1]) + w[|w| - 1]
  }

  lemma {:induction false} TotalPrefix(w: seq<Uint16>, i: nat)
    requires i <= |w|
    ensures Total(w[..i]) <= Total(w)
    ensures i < |w| ==> Total(w[..i + 1]) == Total(w[..i]) + w[i]
  {
    if i < |w| {
      assert w[..i + 1][..i] == w[..i];
    }
    if i == |w| {
      assert w[..i] == w;
    } else if i < |w| - 1 {
      TotalPrefix(w[..|w| - 1], i);
      assert w[..|w| - 1][..i] == w[..i];
    }
  }

  /** Weight one for each of n members. */
  function Ones(n: nat): (w: seq<Uint16>)
    ensures |w| == n && forall i :: 0 <= i < n ==> w[i] == 1
  {
    seq(n, _ => 1)
  }

  lemma {:induction false} TotalOnes(n: nat)
    ensures Total(Ones(n)) == n
  {
    if n > 0 {
      TotalOnes(n - 1);
      assert Ones(n)[..n - 1] == Ones(n - 1);
    }
  }

  /** `normalized` apportions `total` shares to `weights`. */
  ghost predicate Apportions(normalized: seq<Uint16>, weights: seq<Uint16>, total: Uint16)
    requires Total(weights) > 0
  {
    && |normalized| == |weights|
    && Total(normalized) == total
    && (forall i :: 0 <= i < |weights| ==> AtLeastFloor(normalized, weights, total, Total(weights), i))
    && (forall i :: 0 <= i <= |weights| ==> PrefixFair(normalized[..i], weights[..i], total, Total(weights)))
    && (forall i :: 0 <= i < |weights| ==> RemainderShared(normalized, weights, total, i))
  }

  /** Entry i is at least its exact part, rounded down, and zero for a zero weight. */
  ghost predicate AtLeastFloor(normalized: seq<Uint16>, weights: seq<Uint16>, total: nat, sum: nat, i: nat)
    requires i < |normalized| <= |weights| && sum > 0
  {
    && normalized[i] >= weights[i] * total / sum
    && (weights[i] == 0 ==> normalized[i] == 0)
  }

  /** Entry i is the exact part, rounded down, of what the entries before it left. */
  ghost predicate RemainderShared(normalized: seq<Uint16>, weights: seq<Uint16>, total: nat, i: nat)
    requires i < |normalized| <= |weights|
  {
    var sum, left := Total(weights) - Total(weights[..i]), total - Total(normalized[..i]);
    sum > 0 ==> normalized[i] == weights[i] * left / sum
  }

  /** A prefix gets at most its exact proportional part. */
  ghost predicate PrefixFair(normalized: seq<Uint16>, weights: seq<Uint16>, total: nat, sum: nat) {
    Total(normalized) * sum <= Total(weights) * total
  }

  /** One quotient: it fits the remaining total, keeps the remaining ratio from
      falling and is at least the exact share rounded down. */
  lemma QuotientStep(w: nat, t: nat, s: nat, total: nat, sum: nat)
    requires 0 < s && w <= s && 0 < sum && t * sum >= total * s
    ensures 0 <= w * t / s <= t
    ensures (t - w * t / s) * sum >= total * (s - w)
    ensures w * t / s >= w * total / sum
    ensures w == s ==> w * t / s == t
    ensures w == 0 ==> w * t / s == 0
  {
    var q, e := w * t / s, w * total / sum;
    DivBounds(w * t, s);
    DivBounds(w * total, sum);
    QuotientRange(w, t, s, q);
    RatioStep(w, t, s, total, sum, q);
    ShareStep(w, t, s, total, sum, q, e);
  }

  lemma QuotientRange(w: nat, t: nat, s: nat, q: int)
    requires 0 < s && w <= s && q * s <= w * t < (q + 1) * s
    ensures 0 <= q <= t
    ensures w == s ==> q == t
    ensures w == 0 ==> q == 0
  {
    MulMono(w, s, t);
    QuotientBound(q, s, t);
    if q <= -1 {
      MulMono(q + 1, 0, s);
    }
    if w == s {
      QuotientExact(q, s, t);
    }
    if w == 0 {
      QuotientExact(q, s, 0);
    }
  }

  lemma DivBounds(a: nat, s: nat)
    requires s > 0
    ensures (a / s) * s <= a < (a / s + 1) * s
  {
  }

  lemma MulMono(a: int, b: int, c: int)
    requires a <= b && 0 <= c
    ensures a * c <= b * c
  {
  }

  lemma QuotientBound(q: int, s: nat, t: nat)
    requires s > 0 && q * s <= s * t
    ensures q <= t
  {
    if q >= t + 1 {
      MulMono(t + 1, q, s);
    }
  }

  lemma QuotientExact(q: int, s: nat, t: nat)
    requires s > 0 && q * s <= s * t < (q + 1) * s
    ensures q == t
  {
  }

  lemma RatioStep(w: nat, t: nat, s: nat, total: nat, sum: nat, q: nat)
    requires 0 < s && w <= s && t * sum >= total * s && q * s <= w * t
    ensures (t - q) * sum >= total * (s - w)
  {
  }

  lemma ShareStep(w: nat, t: nat, s: nat, total: nat, sum: nat, q: nat, e: nat)
    requires 0 < s && 0 < sum && t * sum >= total * s && w * t < (q + 1) * s && e * sum <= w * total
    ensures q >= e
  {
  }

  /** Go's uint16 negation. */
  function NegUint16(w: Uint16): Uint16 {
    (UINT16_LIMIT - w) % UINT16_LIMIT
  }

  /** The first loop: add up, refusing a sum that would wrap. */
  method CheckedSum(weights: seq<Uint16>) returns (r: Result<Uint16>)
    ensures r.Ok? <==> Total(weights) < UINT16_LIMIT
    ensures r.Ok? ==> r.value == Total(weights)
  {
    var sum: Uint16 := 0;
    for i := 0 to |weights|
      invariant sum == Total(weights[..i])
    {
      TotalPrefix(weights, i);
      TotalPrefix(weights, i + 1);
      if weights[i] != 0 {
        if sum >= NegUint16(weights[i]) {
          return Err("overflow of weights");
        }
        sum := sum + weights[i];
      }
    }
    assert weights[..|weights|] == weights;
    return Ok(sum);
  }

  /** What holds of the shares handed out to the first |given| weights, with
      `left` shares and `sum` weight still to come. */
  ghost predicate PartWay(given: seq<Uint16>, weights: seq<Uint16>, total: nat, left: int, sum: int) {
    var all := Total(weights);
    && 0 < all && |given| <= |weights|
    && sum == all - Total(weights[..|given|]) && sum >= 0
    && left == total - Total(given) && left >= 0
    && left * all >= total * sum
    && (sum == 0 ==> left == 0)
    && (forall k :: 0 <= k < |given| ==> AtLeastFloor(given, weights, total, all, k))
    && (forall k :: 0 <= k <= |given| ==> PrefixFair(given[..k], weights[..k], total, all))
    && (forall k :: 0 <= k < |given| ==> RemainderShared(given, weights, total, k))
  }

  /** The next share; none once the remaining weight is zero. */
  function Quota(w: Uint16, left: Uint16, sum: Uint16): (q: Uint16)
    requires w <= sum
    ensures q <= left
  {
    if sum == 0 then 0 else
      QuotientStep(w, left, sum, 0, 1);
      (w * left) / sum
  }

  lemma WeightRemains(given: seq<Uint16>, weights: seq<Uint16>, total: nat, left: int, sum: int)
    requires PartWay(given, weights, total, left, sum) && |given| < |weights|
    ensures weights[|given|] <= sum
  {
    TotalPrefix(weights, |given|);
    TotalPrefix(weights, |given| + 1);
  }

  lemma HandOut(given: seq<Uint16>, weights: seq<Uint16>, total: nat, left: Uint16, sum: Uint16, share: Uint16)
    requires PartWay(given, weights, total, left, sum) && |given| < |weights|
    requires weights[|given|] <= sum && share == Quota(weights[|given|], left, sum)
    ensures PartWay(given + [share], weights, total, left - share, sum - weights[|given|])
  {
    var i, all, more := |given|, Total(weights), given + [share];
    TotalPrefix(weights, i);
    if sum == 0 {
      ZeroShare(total, all);
    } else {
      QuotientStep(weights[i], left, sum, total, all);
    }
    assert more[..i] == given;
    FairFromRemaining(Total(more), Total(weights[..i + 1]), total, all);
    FloorExtends(given, weights, total, all, share);
    FairExtends(given, weights, total, all, share);
    RemainderExtends(given, weights, total, share);
  }

  lemma FloorExtends(given: seq<Uint16>, weights: seq<Uint16>, total: nat, all: nat, share: Uint16)
    requires |given| < |weights| && all > 0
    requires forall k :: 0 <= k < |given| ==> AtLeastFloor(given, weights, total, all, k)
    requires AtLeastFloor(given + [share], weights, total, all, |given|)
    ensures forall k :: 0 <= k <= |given| ==> AtLeastFloor(given + [share], weights, total, all, k)
  {
    forall k | 0 <= k < |given| ensures AtLeastFloor(given + [share], weights, total, all, k) {
      assert AtLeastFloor(given, weights, total, all, k);
    }
  }

  lemma FairExtends(given: seq<Uint16>, weights: seq<Uint16>, total: nat, all: nat, share: Uint16)
    requires |given| < |weights|
    requires forall k :: 0 <= k <= |given| ==> PrefixFair(given[..k], weights[..k], total, all)
    requires PrefixFair(given + [share], weights[..|given| + 1], total, all)
    ensures forall k :: 0 <= k <= |given| + 1 ==> PrefixFair((given + [share])[..k], weights[..k], total, all)
  {
    var more := given + [share];
    forall k | 0 <= k <= |given| + 1 ensures PrefixFair(more[..k], weights[..k], total, all) {
      assert more[..k] == if k <= |given| then given[..k] else more;
    }
  }

  lemma RemainderExtends(given: seq<Uint16>, weights: seq<Uint16>, total: nat, share: Uint16)
    requires |given| < |weights|
    requires forall k :: 0 <= k < |given| ==> RemainderShared(given, weights, total, k)
    requires RemainderShared(given + [share], weights, total, |given|)
    ensures forall k :: 0 <= k <= |given| ==> RemainderShared(given + [share], weights, total, k)
  {
    var more := given + [share];
    forall k | 0 <= k <= |given| ensures RemainderShared(more, weights, total, k) {
      if k < |given| {
        assert more[..k] == given[..k];
        RemainderSame(given, more, weights, total, k);
      }
    }
  }

  lemma RemainderSame(a: seq<Uint16>, b: seq<Uint16>, weights: seq<Uint16>, total: nat, k: nat)
    requires k < |a| <= |weights| && k < |b| <= |weights| && a[..k] == b[..k] && a[k] == b[k]
    requires RemainderShared(a, weights, total, k)
    ensures RemainderShared(b, weights, total, k)
  {
  }

  /** One turn of the second loop. The source leaves it at sum == 0; the rest of its
      slice is already zero. */
  method NextShare(given: seq<Uint16>, weights: seq<Uint16>, ghost total: nat, left: Uint16, sum: Uint16)
    returns (share: Uint16)
    requires PartWay(given, weights, total, left, sum) && |given| < |weights|
    ensures share <= left && weights[|given|] <= sum
    ensures PartWay(given + [share], weights, total, left - share, sum - weights[|given|])
  {
    WeightRemains(given, weights, total, left, sum);
    share := Quota(weights[|given|], left, sum);
    HandOut(given, weights, total, left, sum, share);
  }

  lemma NothingHandedOut(weights: seq<Uint16>, total: nat)
    requires Total(weights) > 0
    ensures PartWay([], weights, total, total, Total(weights))
  {
  }

  method WeightsNormalization(weights: seq<Uint16>, total: Uint16) returns (r: Result<seq<Uint16>>)
    ensures r.Ok? <==> 0 < Total(weights) < UINT16_LIMIT
    ensures r.Ok? ==> Apportions(r.value, weights, total)
    ensures r.Ok? ==> |r.value| == |weights| && Total(r.value) == total
                      && forall i :: 0 <= i < |weights| ==> r.value[i] >= weights[i] * total / Total(weights)
  {
    var checked := CheckedSum(weights);
    if checked.Err? {
      return Err(checked.error);
    }
    if checked.value == 0 {
      return Err("total weight is zero");
    }
    NothingHandedOut(weights, total);
    var normalized := HandOutAll(weights, checked.value, total);
    FloorsMet(normalized, weights, total);
    return Ok(normalized);
  }

  lemma FloorsMet(normalized: seq<Uint16>, weights: seq<Uint16>, total: Uint16)
    requires Total(weights) > 0 && Apportions(normalized, weights, total)
    ensures forall i :: 0 <= i < |weights| ==> normalized[i] >= weights[i] * total / Total(weights)
  {
    forall i | 0 <= i < |weights| ensures normalized[i] >= weights[i] * total / Total(weights) {
      assert AtLeastFloor(normalized, weights, total, Total(weights), i);
    }
  }

  method HandOutAll(weights: seq<Uint16>, all: Uint16, total: Uint16) returns (normalized: seq<Uint16>)
    requires PartWay([], weights, total, total, all)
    ensures Apportions(normalized, weights, total)
  {
    var left, sum := total, all;
    normalized := [];
    for i := 0 to |weights|
      invariant |normalized| == i && PartWay(normalized, weights, total, left, sum)
    {
      var share := NextShare(normalized, weights, total, left, sum);
      normalized, sum, left := normalized + [share], sum - weights[i], left - share;
    }
    AllHandedOut(normalized, weights, total, left, sum);
  }

  lemma AllHandedOut(given: seq<Uint16>, weights: seq<Uint16>, total: Uint16, left: int, sum: int)
    requires PartWay(given, weights, total, left, sum) && |given| == |weights|
    ensures Apportions(given, weights, total)
  {
    assert weights[..|weights|] == weights;
  }

  /** The contract leaves no choice: there is only one such apportionment. */
  lemma {:induction false} ApportionmentUnique(a: seq<Uint16>, b: seq<Uint16>, weights: seq<Uint16>, total: Uint16, i: nat)
    requires Total(weights) > 0 && i <= |weights|
    requires Apportions(a, weights, total) && Apportions(b, weights, total)
    ensures a[..i] == b[..i]
  {
    if i > 0 {
      var k := i - 1;
      ApportionmentUnique(a, b, weights, total, k);
      assert RemainderShared(a, weights, total, k) && RemainderShared(b, weights, total, k);
      assert AtLeastFloor(a, weights, total, Total(weights), k) && AtLeastFloor(b, weights, total, Total(weights), k);
      NextEntryEqual(a, b, weights, total, k);
      assert a[..i] == a[..k] + [a[k]] && b[..i] == b[..k] + [b[k]];
    }
  }

  lemma NextEntryEqual(a: seq<Uint16>, b: seq<Uint16>, weights: seq<Uint16>, total: Uint16, k: nat)
    requires k < |a| == |b| == |weights| && a[..k] == b[..k]
    requires RemainderShared(a, weights, total, k) && RemainderShared(b, weights, total, k)
    requires weights[k] == 0 ==> a[k] == b[k] == 0
    ensures a[k] == b[k]
  {
    TotalPrefix(weights, k);
    TotalPrefix(weights, k + 1);
    if Total(weights[..k]) == Total(weights) {
      assert weights[k] == 0;
    }
  }

  lemma ZeroShare(total: nat, sum: nat)
    requires sum > 0
    ensures 0 * total / sum == 0
  {
  }

  lemma FairFromRemaining(given: int, used: int, total: int, all: int)
    requires (total - given) * all >= total * (all - used)
    ensures given * all <= used * total
  {
  }
}
