/** Who may have an instruction carried out: pkg/processorutils/thresholds.go and
    signaturesToSigners in internal/processors/instructions/instructions.go. */
module Quorum {
  import opened Wrappers
  import opened Field
  import opened Sets
  import opened Weights
  import opened Wallets
  import opened Voters

  const MAX_BIPS := 10_000
  const FDC_MINIMUM_THRESHOLD_BIPS := 4_000

  /** What an instruction asks for: an FDC2 proof, whose request may fail to decode,
      or anything else. */
  datatype Request = Prove(thresholdBips: Option<Uint16>) | Regular

  /** The fixed part of an instruction. `message` stands for its command and its fixed
      messages, of which `request` is what the thresholds depend on. */
  datatype Data = Data(
    rewardEpochId: nat, request: Request, message: nat, cosigners: seq<Address>, cosignersThreshold: Uint64)

  // ---- signers -------------------------------------------------------------------------

  /** The address to which a signature over an instruction with one variable message
      recovers, if any. */
  type Recover = (Data, nat, nat) -> Option<Address>

  method SignaturesToSigners(d: Data, messages: seq<nat>, signatures: seq<nat>, recover: Recover)
    returns (r: Result<seq<Address>>)
    ensures r.Ok? ==>
      && |r.value| == |signatures| == |messages|
      && NoDuplicates(r.value)
      && forall i :: 0 <= i < |signatures| ==> recover(d, messages[i], signatures[i]) == Some(r.value[i])
    ensures r.Err? ==>
      || |messages| != |signatures|
      || (exists i :: 0 <= i < |signatures| && recover(d, messages[i], signatures[i]).None?)
      || (exists i, j :: 0 <= i < j < |signatures| && recover(d, messages[i], signatures[i]) == recover(d, messages[j], signatures[j]))
  {
    if |messages| != |signatures| {
      return Err("the number of variable messages does not match the number of signatures");
    }
    var signers: seq<Address> := [];
    for i := 0 to |signatures|
      invariant |signers| == i && NoDuplicates(signers)
      invariant forall k :: 0 <= k < i ==> recover(d, messages[k], signatures[k]) == Some(signers[k])
    {
      var signer := recover(d, messages[i], signatures[i]);
      if signer.None? {
        return Err("invalid signature");
      }
      if signer.value in signers {
        ghost var k :| 0 <= k < i && signers[k] == signer.value;
        assert recover(d, messages[k], signatures[k]) == recover(d, messages[i], signatures[i]);
        return Err("double signing");
      }
      signers := signers + [signer.value];
    }
    return Ok(signers);
  }

  // ---- thresholds ------------------------------------------------------------------------

  /** How many of the cosigners are among the signers. */
  function CosignersIn(cosigners: seq<Address>, signers: seq<Address>): nat {
    SumIn(cosigners, Ones(|cosigners|), signers, |cosigners|)
  }

  lemma CosignersInBounded(cosigners: seq<Address>, signers: seq<Address>)
    ensures CosignersIn(cosigners, signers) <= |cosigners|
  {
    SumInBounded(cosigners, Ones(|cosigners|), signers, |cosigners|);
    TotalOnes(|cosigners|);
  }

  lemma {:induction false} CountUpTo(cosigners: seq<Address>, signers: seq<Address>, n: nat)
    requires n <= |cosigners| && NoDuplicates(cosigners)
    ensures |Common(cosigners[..n], signers)| == SumIn(cosigners, Ones(|cosigners|), signers, n)
  {
    if n == 0 {
      assert Common(cosigners[..0], signers) == {};
    } else {
      CountUpTo(cosigners, signers, n - 1);
      var before, c := Common(cosigners[..n - 1], signers), cosigners[n - 1];
      assert cosigners[..n] == cosigners[..n - 1] + [c];
      assert c !in before;
      assert Common(cosigners[..n], signers) == if c in signers then before + {c} else before;
    }
  }

  /** Among distinct cosigners the count is the number of different people who signed. */
  lemma CountIsCardinality(cosigners: seq<Address>, signers: seq<Address>)
    requires NoDuplicates(cosigners)
    ensures CosignersIn(cosigners, signers) == |Common(cosigners, signers)|
  {
    CountUpTo(cosigners, signers, |cosigners|);
    assert cosigners[..|cosigners|] == cosigners;
  }

  method CheckCosigners(signers: seq<Address>, cosigners: seq<Address>, threshold: Uint64) returns (r: Result<()>)
    ensures r.Ok? <==> CosignersIn(cosigners, signers) >= threshold
  {
    var count: nat := 0;
    for i := 0 to |cosigners|
      invariant count == SumIn(cosigners, Ones(|cosigners|), signers, i)
    {
      if cosigners[i] in signers {
        count := count + 1;
      }
    }
    return if count < threshold then Err("cosigners threshold not reached") else Ok(());
  }

  function PolicyThreshold(p: SigningPolicy): (r: Result<Uint16>)
    ensures r.Ok? <==> p.threshold > 0
  {
    if p.threshold == 0 then Err("signing policy threshold is zero") else Ok(p.threshold)
  }

  /** Rounded down; the cast to uint16 loses nothing for bips up to 10000. */
  function ComputeThreshold(total: Uint16, bips: Uint16): (t: Uint16)
  {
    ((total * bips) / MAX_BIPS) % UINT16_LIMIT
  }

  /** The weight the signers have to exceed. The product is taken in uint64. */
  function DataProvidersThreshold(d: Data, p: SigningPolicy): Result<Uint16> {
    match d.request
    case Regular => PolicyThreshold(p)
    case Prove(None) => Err("request does not decode")
    case Prove(Some(bips)) =>
      if bips == 0 then PolicyThreshold(p)
      else if bips < FDC_MINIMUM_THRESHOLD_BIPS then Err("data providers threshold too low")
      else if bips < MAX_BIPS / 2 && (d.cosignersThreshold * 2) % UINT64_LIMIT <= |d.cosigners|
      then Err("one threshold should be above 50%")
      else if bips >= MAX_BIPS then Err("data providers threshold too high")
      else Ok(ComputeThreshold(Total(p.weights) % UINT16_LIMIT, bips))
  }

  /** Everything CheckThresholds demands. */
  ghost predicate Accepted(d: Data, signers: seq<Address>, p: SigningPolicy)
    requires PolicyOk(p)
  {
    && NoDuplicates(d.cosigners)
    && CosignersIn(d.cosigners, signers) >= d.cosignersThreshold
    && DataProvidersThreshold(d, p).Ok?
    && WeightOf(p, signers) > DataProvidersThreshold(d, p).value
    && forall i :: 0 <= i < |signers| ==> signers[i] in d.cosigners || signers[i] in p.voters
  }

  method CheckThresholds(d: Data, signers: seq<Address>, p: SigningPolicy) returns (r: Result<()>)
    requires PolicyOk(p)
    ensures r.Ok? <==> Accepted(d, signers, p)
  {
    var dup := HasDuplicateAddresses(d.cosigners);
    if dup {
      return Err("cosigner list contains duplicate addresses");
    }
    r := CheckCosigners(signers, d.cosigners, d.cosignersThreshold);
    if r.Err? {
      return;
    }
    var dpThreshold :- DataProvidersThreshold(d, p);
    var weight := WeightOfSigners(signers, p);
    if weight <= dpThreshold {
      return Err("data providers threshold not reached");
    }
    for i := 0 to |signers|
      invariant forall k :: 0 <= k < i ==> signers[k] in d.cosigners || signers[k] in p.voters
    {
      if signers[i] !in d.cosigners && VoterIndex(p.voters, signers[i]) == -1 {
        return Err("signed by an entity that is neither data provider nor cosigner");
      }
    }
    return Ok(());
  }

  // ---- what the override keeps -----------------------------------------------------------

  /** The strict test against the rounded threshold is the exact comparison. */
  lemma ThresholdIsExact(total: Uint16, bips: Uint16, weight: nat)
    requires bips <= MAX_BIPS
    ensures weight > ComputeThreshold(total, bips) <==> weight * MAX_BIPS > total * bips
  {
    MulMono(bips, MAX_BIPS, total);
    MulMono(0, bips, total);
    FloorIsExact(total * bips, total, weight);
  }

  lemma FloorIsExact(x: nat, total: Uint16, weight: nat)
    requires x <= MAX_BIPS * total
    ensures weight > (x / MAX_BIPS) % UINT16_LIMIT <==> weight * MAX_BIPS > x
  {
  }

  /** An accepted cosigner threshold is at most the number of cosigners, so doubling
      it stays within uint64. */
  lemma DoublingDoesNotWrap(d: Data, signers: seq<Address>)
    requires |d.cosigners| < UINT64_LIMIT / 2 && CosignersIn(d.cosigners, signers) >= d.cosignersThreshold
    ensures (d.cosignersThreshold * 2) % UINT64_LIMIT == d.cosignersThreshold * 2
  {
    CosignersInBounded(d.cosigners, signers);
  }

  /** The provider weight that the request asks for. */
  ghost predicate WeightReached(d: Data, signers: seq<Address>, p: SigningPolicy)
    requires PolicyOk(p)
  {
    match d.request
    case Regular => WeightOf(p, signers) > p.threshold > 0
    case Prove(None) => false
    case Prove(Some(bips)) =>
      if bips == 0 then WeightOf(p, signers) > p.threshold > 0 else
        && 4000 <= bips < 10000
        && (bips >= 5000 || 2 * d.cosignersThreshold > |d.cosigners|)
        && WeightOf(p, signers) * 10000 > Total(p.weights) * bips
  }

  /** Exactly what is accepted: distinct cosigners, enough different people among them,
      no strangers, and provider weight above the policy's threshold, which must not be
      zero, or above the exact share that an FDC2 request names between 40% included and
      100% excluded, where below 50% more than half of the cosigners must be demanded. */
  lemma AcceptedIff(d: Data, signers: seq<Address>, p: SigningPolicy)
    requires PolicyOk(p) && |d.cosigners| < UINT64_LIMIT / 2
    ensures Accepted(d, signers, p) <==>
      && (forall i, j :: 0 <= i < j < |d.cosigners| ==> d.cosigners[i] != d.cosigners[j])
      && |Common(d.cosigners, signers)| >= d.cosignersThreshold
      && (forall a :: a in signers ==> a in d.cosigners || a in p.voters)
      && WeightReached(d, signers, p)
  {
    if NoDuplicates(d.cosigners) {
      CountIsCardinality(d.cosigners, signers);
      if CosignersIn(d.cosigners, signers) >= d.cosignersThreshold {
        DoublingDoesNotWrap(d, signers);
        WeightIff(d, signers, p);
      }
    }
  }

  lemma WeightIff(d: Data, signers: seq<Address>, p: SigningPolicy)
    requires PolicyOk(p) && (d.cosignersThreshold * 2) % UINT64_LIMIT == d.cosignersThreshold * 2
    ensures DataProvidersThreshold(d, p).Ok? && WeightOf(p, signers) > DataProvidersThreshold(d, p).value <==>
      WeightReached(d, signers, p)
  {
    if d.request.Prove? && d.request.thresholdBips.Some? {
      OverrideIff(d, p, d.request.thresholdBips.value, WeightOf(p, signers));
    }
  }

  /** The range checks of an override, and the comparison that is left. */
  lemma OverrideIff(d: Data, p: SigningPolicy, bips: Uint16, weight: nat)
    requires PolicyOk(p) && (d.cosignersThreshold * 2) % UINT64_LIMIT == d.cosignersThreshold * 2
    requires d.request == Prove(Some(bips))
    ensures bips > 0 ==>
      (DataProvidersThreshold(d, p).Ok? <==> 4000 <= bips < 10000 && (bips >= 5000 || 2 * d.cosignersThreshold > |d.cosigners|))
    ensures bips > 0 && DataProvidersThreshold(d, p).Ok? ==>
      (weight > DataProvidersThreshold(d, p).value <==> weight * 10000 > Total(p.weights) * bips)
  {
    if bips <= MAX_BIPS {
      ThresholdIsExact(Total(p.weights), bips, weight);
    }
  }

  /** An accepted proof request with an override of its own: either most of the
      weight or most of the cosigners have signed. */
  lemma OneMajority(d: Data, signers: seq<Address>, p: SigningPolicy)
    requires PolicyOk(p) && |d.cosigners| < UINT64_LIMIT / 2 && Accepted(d, signers, p)
    requires d.request.Prove? && d.request.thresholdBips != Some(0)
    ensures d.request.thresholdBips.value >= MAX_BIPS / 2 ==> 2 * WeightOf(p, signers) > Total(p.weights)
    ensures d.request.thresholdBips.value < MAX_BIPS / 2 ==> 2 * d.cosignersThreshold > |d.cosigners|
  {
    var bips := d.request.thresholdBips.value;
    DoublingDoesNotWrap(d, signers);
    if bips >= MAX_BIPS / 2 {
      ThresholdIsExact(Total(p.weights), bips, WeightOf(p, signers));
      MulMono(MAX_BIPS / 2, bips, Total(p.weights));
    }
  }

  /** Any two accepted signer sets of proof requests with overrides, under one policy
      and one cosigner list and threshold, have a signer in common. The overrides
      need not be equal. */
  lemma QuorumsIntersect(d1: Data, s1: seq<Address>, d2: Data, s2: seq<Address>, p: SigningPolicy) returns (a: Address)
    requires PolicyOk(p) && |d1.cosigners| < UINT64_LIMIT / 2
    requires d1.cosigners == d2.cosigners && d1.cosignersThreshold == d2.cosignersThreshold
    requires d1.request.Prove? && d1.request.thresholdBips != Some(0)
    requires d2.request.Prove? && d2.request.thresholdBips != Some(0)
    requires Accepted(d1, s1, p) && Accepted(d2, s2, p)
    ensures a in s1 && a in s2
  {
    OneMajority(d1, s1, p);
    OneMajority(d2, s2, p);
    if d1.request.thresholdBips.value >= MAX_BIPS / 2 && d2.request.thresholdBips.value >= MAX_BIPS / 2 {
      a := CommonMember(p.voters, p.weights, s1, s2);
    } else {
      TotalOnes(|d1.cosigners|);
      a := CommonMember(d1.cosigners, Ones(|d1.cosigners|), s1, s2);
    }
  }
}
