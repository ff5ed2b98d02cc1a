/** Weighted membership: how much of a list of members has signed.
    internal/policy/policy.go and the voter set it reads. */
module Voters {
  import opened Weights
  import opened Wallets

  const UINT24_LIMIT: nat := 0x100_0000

  /** A decoded signing policy. `raw` stands for its bytes. */
  datatype SigningPolicy = SigningPolicy(
    epoch: nat, threshold: Uint16, voters: seq<Address>, weights: seq<Uint16>, raw: nat)

  predicate NoDuplicates(s: seq<Address>) {
    forall i, j :: 0 <= i < j < |s| ==> s[i] != s[j]
  }

  /** What decoding guarantees: distinct voters, a total weight that fits uint16
      and a 24-bit epoch. */
  ghost predicate PolicyOk(p: SigningPolicy) {
    && |p.voters| == |p.weights| && NoDuplicates(p.voters)
    && Total(p.weights) < UINT16_LIMIT
    && p.epoch < UINT24_LIMIT
  }

  /** The weight of the first n members that are among the signers. A signer counts
      once however often it is listed. */
  function SumIn(members: seq<Address>, weights: seq<Uint16>, signers: seq<Address>, n: nat): nat
    requires n <= |members| == |weights|
  {
    if n == 0 then 0
    else SumIn(members, weights, signers, n - 1) + if members[n - 1] in signers then weights[n - 1] else 0
  }

  function WeightOf(p: SigningPolicy, signers: seq<Address>): nat
    requires |p.voters| == |p.weights|
  {
    SumIn(p.voters, p.weights, signers, |p.voters|)
  }

  lemma {:induction false} SumInBounded(members: seq<Address>, weights: seq<Uint16>, signers: seq<Address>, n: nat)
    requires n <= |members| == |weights|
    ensures SumIn(members, weights, signers, n) <= Total(weights[..n]) <= Total(weights)
  {
    TotalPrefix(weights, n);
    if n > 0 {
      SumInBounded(members, weights, signers, n - 1);
      TotalPrefix(weights, n - 1);
    }
  }

  /** Two groups without a common member weigh at most the whole together. */
  lemma {:induction false} DisjointSum(members: seq<Address>, weights: seq<Uint16>, a: seq<Address>, b: seq<Address>, n: nat)
    requires n <= |members| == |weights|
    requires forall i :: 0 <= i < n ==> !(members[i] in a && members[i] in b)
    ensures SumIn(members, weights, a, n) + SumIn(members, weights, b, n) <= Total(weights[..n])
  {
    if n > 0 {
      DisjointSum(members, weights, a, b, n - 1);
      TotalPrefix(weights, n - 1);
    }
  }

  /** Two groups that weigh more than the whole together have a member in common. */
  lemma CommonMember(members: seq<Address>, weights: seq<Uint16>, a: seq<Address>, b: seq<Address>) returns (m: Address)
    requires |members| == |weights|
    requires SumIn(members, weights, a, |members|) + SumIn(members, weights, b, |members|) > Total(weights)
    ensures m in members && m in a && m in b
  {
    assert weights[..|members|] == weights;
    if forall i :: 0 <= i < |members| ==> !(members[i] in a && members[i] in b) {
      DisjointSum(members, weights, a, b, |members|);
      assert false;
    }
    var i :| 0 <= i < |members| && members[i] in a && members[i] in b;
    m := members[i];
  }

  /** Who is no member weighs nothing. */
  lemma {:induction false} StrangersWeighNothing(members: seq<Address>, weights: seq<Uint16>, signers: seq<Address>, n: nat)
    requires n <= |members| == |weights| && forall i :: 0 <= i < n ==> members[i] !in signers
    ensures SumIn(members, weights, signers, n) == 0
  {
    if n > 0 {
      StrangersWeighNothing(members, weights, signers, n - 1);
    }
  }

  /** A single voter weighs its own weight. */
  lemma {:induction false} WeightOfOne(p: SigningPolicy, i: nat, n: nat)
    requires PolicyOk(p) && i < |p.voters| && n <= |p.voters|
    ensures SumIn(p.voters, p.weights, [p.voters[i]], n) == if i < n then p.weights[i] else 0
  {
    if n > 0 {
      WeightOfOne(p, i, n - 1);
    }
  }

  /** Adds in uint16, as the source does; the sum is exact because the total fits. */
  method WeightOfSigners(signers: seq<Address>, p: SigningPolicy) returns (w: Uint16)
    requires PolicyOk(p)
    ensures w == WeightOf(p, signers)
  {
    w := 0;
    for i := 0 to |p.voters|
      invariant w == SumIn(p.voters, p.weights, signers, i)
    {
      SumInBounded(p.voters, p.weights, signers, i + 1);
      if p.voters[i] in signers {
        w := (w + p.weights[i]) % UINT16_LIMIT;
      }
    }
  }

  method HasDuplicateAddresses(addrs: seq<Address>) returns (dup: bool)
    ensures dup <==> !NoDuplicates(addrs)
  {
    var seen: set<Address> := {};
    for i := 0 to |addrs|
      invariant seen == set k | 0 <= k < i :: addrs[k]
      invariant NoDuplicates(addrs[..i])
    {
      if addrs[i] in seen {
        var k :| 0 <= k < i && addrs[k] == addrs[i];
        return true;
      }
      seen := seen + {addrs[i]};
      assert addrs[..i + 1] == addrs[..i] + [addrs[i]];
    }
    assert addrs[..|addrs|] == addrs;
    return false;
  }

  /** voters.Set.VoterIndex: the position, or -1. */
  function VoterIndex(voters: seq<Address>, a: Address): (i: int)
    ensures -1 <= i < |voters|
    ensures i == -1 <==> a !in voters
    ensures i >= 0 ==> voters[i] == a
  {
    if |voters| == 0 then -1
    else if voters[|voters| - 1] == a then |voters| - 1
    else VoterIndex(voters[..|voters| - 1], a)
  }
}
