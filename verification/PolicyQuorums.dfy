/** What the threshold of a signing policy is worth where it decides alone:
    policyThreshold in pkg/processorutils/thresholds.go. Nothing bounds that field, so
    two quorums need not intersect and a quorum need not be a majority. Here is when. */
module PolicyQuorums {
  import opened Wrappers
  import opened Weights
  import opened Wallets
  import opened Voters
  import opened Quorum

  /** The policy's own threshold decides: there is no override, or an empty one. */
  predicate PolicyRuled(d: Data) {
    d.request.Regular? || d.request == Prove(Some(0))
  }

  /** The signers of an accepted instruction. */
  ghost predicate IsQuorum(d: Data, signers: seq<Address>, p: SigningPolicy) {
    PolicyOk(p) && PolicyRuled(d) && Accepted(d, signers, p)
  }

  ghost predicate Share(s1: seq<Address>, s2: seq<Address>) {
    exists a :: a in s1 && a in s2
  }

  /** Any two quorums under the policy have a signer in common. */
  ghost predicate Intersecting(p: SigningPolicy) {
    forall d1, s1, d2, s2 :: IsQuorum(d1, s1, p) && IsQuorum(d2, s2, p) ==> Share(s1, s2)
  }

  /** Every quorum under the policy is more than half of the voting weight. */
  ghost predicate Majority(p: SigningPolicy)
    requires PolicyOk(p)
  {
    forall d, s :: IsQuorum(d, s, p) ==> 2 * WeightOf(p, s) > Total(p.weights)
  }

  // ---- quorums of voters alone --------------------------------------------------------------

  const PLAIN := Data(0, Regular, 0, [], 0)

  /** The voters among `a`, or those that are not. */
  function Select(voters: seq<Address>, a: seq<Address>, inside: bool): (r: seq<Address>)
    ensures forall v :: v in r <==> v in voters && (v in a <==> inside)
  {
    if |voters| == 0 then [] else
      var rest, last := Select(voters[..|voters| - 1], a, inside), voters[|voters| - 1];
      assert voters == voters[..|voters| - 1] + [last];
      if last in a <==> inside then rest + [last] else rest
  }

  lemma {:induction false} SumInMonotone(members: seq<Address>, weights: seq<Uint16>, a: seq<Address>, b: seq<Address>, n: nat)
    requires n <= |members| == |weights|
    requires forall i :: 0 <= i < n && members[i] in a ==> members[i] in b
    ensures SumIn(members, weights, a, n) <= SumIn(members, weights, b, n)
  {
    if n > 0 {
      SumInMonotone(members, weights, a, b, n - 1);
    }
  }

  lemma {:induction false} SumOfAll(members: seq<Address>, weights: seq<Uint16>, n: nat)
    requires n <= |members| == |weights|
    ensures SumIn(members, weights, members, n) == Total(weights[..n])
  {
    if n > 0 {
      SumOfAll(members, weights, n - 1);
      TotalPrefix(weights, n - 1);
    }
  }

  /** Voters alone are a quorum exactly when they outweigh a threshold that is not zero. */
  lemma VotersAreQuorum(p: SigningPolicy, s: seq<Address>)
    requires PolicyOk(p) && forall v :: v in s ==> v in p.voters
    ensures IsQuorum(PLAIN, s, p) <==> WeightOf(p, s) > p.threshold > 0
  {
    CosignersInBounded([], s);
  }

  lemma SelectedWeight(p: SigningPolicy, a: seq<Address>)
    requires PolicyOk(p)
    ensures WeightOf(p, Select(p.voters, a, true)) == WeightOf(p, a)
  {
    SumInMonotone(p.voters, p.weights, Select(p.voters, a, true), a, |p.voters|);
    SumInMonotone(p.voters, p.weights, a, Select(p.voters, a, true), |p.voters|);
  }

  // ---- exactly when, voter by voter ------------------------------------------------------------

  /** `a` outweighs the threshold and so do the voters outside `a`. */
  ghost predicate SplitsVoters(p: SigningPolicy, a: seq<Address>)
    requires PolicyOk(p)
  {
    WeightOf(p, a) > p.threshold && WeightOf(p, Select(p.voters, a, false)) > p.threshold
  }

  /** Quorums intersect exactly when the voters cannot be parted into two groups that
      both outweigh the threshold, or when the threshold is zero and there are none. */
  lemma IntersectingIff(p: SigningPolicy)
    requires PolicyOk(p)
    ensures Intersecting(p) <==> p.threshold == 0 || !exists a :: SplitsVoters(p, a)
  {
    if a :| p.threshold > 0 && SplitsVoters(p, a) {
      DisjointQuorums(p, a);
    }
    forall d1, s1, d2, s2 | IsQuorum(d1, s1, p) && IsQuorum(d2, s2, p) && !Share(s1, s2)
      ensures p.threshold > 0 && SplitsVoters(p, s1)
    {
      SumInMonotone(p.voters, p.weights, s2, Select(p.voters, s1, false), |p.voters|);
    }
  }

  lemma DisjointQuorums(p: SigningPolicy, a: seq<Address>)
    requires PolicyOk(p) && p.threshold > 0 && SplitsVoters(p, a)
    ensures !Intersecting(p)
  {
    var s1, s2 := Select(p.voters, a, true), Select(p.voters, a, false);
    SelectedWeight(p, a);
    VotersAreQuorum(p, s1);
    VotersAreQuorum(p, s2);
    assert !Share(s1, s2);
  }

  /** Quorums are majorities exactly when no group of voters outweighs the threshold
      without being one. */
  lemma MajorityIff(p: SigningPolicy)
    requires PolicyOk(p)
    ensures Majority(p) <==>
      p.threshold == 0 || forall a :: WeightOf(p, a) > p.threshold ==> 2 * WeightOf(p, a) > Total(p.weights)
  {
    if p.threshold > 0 && Majority(p) {
      forall a | WeightOf(p, a) > p.threshold ensures 2 * WeightOf(p, a) > Total(p.weights) {
        SelectedWeight(p, a);
        VotersAreQuorum(p, Select(p.voters, a, true));
      }
    }
  }

  /** There is a quorum at all exactly when the threshold is neither zero nor out of
      reach: under a zero threshold no instruction is ever accepted. */
  lemma QuorumExistsIff(p: SigningPolicy)
    requires PolicyOk(p)
    ensures (exists d, s :: IsQuorum(d, s, p)) <==> 0 < p.threshold < Total(p.weights)
  {
    assert p.weights[..|p.voters|] == p.weights;
    SumOfAll(p.voters, p.weights, |p.voters|);
    VotersAreQuorum(p, p.voters);
    forall d, s | IsQuorum(d, s, p) ensures 0 < p.threshold < Total(p.weights) {
      SumInBounded(p.voters, p.weights, s, |p.voters|);
    }
  }

  // ---- exactly when, from the two numbers --------------------------------------------------------

  /** From half of the total weight on, rounded down, quorums intersect and are majorities. */
  lemma HalfSuffices(p: SigningPolicy)
    requires PolicyOk(p) && p.threshold >= Total(p.weights) / 2
    ensures Intersecting(p) && Majority(p)
  {
    forall d1, s1, d2, s2 | IsQuorum(d1, s1, p) && IsQuorum(d2, s2, p) ensures Share(s1, s2) {
      var a := CommonMember(p.voters, p.weights, s1, s2);
    }
  }

  /** Two voters who have half of the total each, up to rounding. */
  function TwoVoters(threshold: Uint16, total: Uint16): SigningPolicy {
    SigningPolicy(0, threshold, [0, 1], [total / 2, total - total / 2], 0)
  }

  lemma TwoVotersWeigh(threshold: Uint16, total: Uint16)
    ensures var p := TwoVoters(threshold, total);
            && PolicyOk(p) && Total(p.weights) == total
            && WeightOf(p, [0]) == total / 2 && WeightOf(p, [1]) == total - total / 2
  {
    var p := TwoVoters(threshold, total);
    var w := p.weights;
    assert w[..1] == [total / 2] && w[..1][..0] == [];
    assert Total(w[..1]) == total / 2;
    assert p.voters[0] == 0 && p.voters[1] == 1;
    WeightOfOne(p, 0, 2);
    WeightOfOne(p, 1, 2);
  }

  /** Below half, for every threshold and total, there is a policy with two disjoint
      quorums, one of which is no majority. */
  lemma PolicyQuorumsCanBeDisjoint(threshold: Uint16, total: Uint16)
    requires 0 < threshold < total / 2
    ensures var p := TwoVoters(threshold, total);
            && PolicyOk(p) && p.threshold == threshold && Total(p.weights) == total
            && IsQuorum(PLAIN, [0], p) && IsQuorum(PLAIN, [1], p)
            && !Intersecting(p) && !Majority(p)
  {
    var p := TwoVoters(threshold, total);
    TwoVotersWeigh(threshold, total);
    VotersAreQuorum(p, [0]);
    VotersAreQuorum(p, [1]);
    assert !Share([0], [1]);
  }

  ghost predicate Has(p: SigningPolicy, threshold: Uint16, total: Uint16) {
    PolicyOk(p) && p.threshold == threshold && Total(p.weights) == total
  }

  /** What a threshold guarantees by itself: quorums intersect under every policy of this
      threshold and total exactly when it is at least half of the total, rounded down, or
      zero; and they are majorities under exactly the same condition. */
  lemma ThresholdDecides(threshold: Uint16, total: Uint16)
    ensures (forall p :: Has(p, threshold, total) ==> Intersecting(p)) <==> threshold == 0 || threshold >= total / 2
    ensures (forall p :: Has(p, threshold, total) ==> Majority(p)) <==> threshold == 0 || threshold >= total / 2
  {
    forall p | Has(p, threshold, total) && (threshold == 0 || threshold >= total / 2) ensures Intersecting(p) && Majority(p) {
      if threshold == 0 {
        QuorumExistsIff(p);
      } else {
        HalfSuffices(p);
      }
    }
    if 0 < threshold < total / 2 {
      PolicyQuorumsCanBeDisjoint(threshold, total);
      assert Has(TwoVoters(threshold, total), threshold, total);
    }
  }
}
