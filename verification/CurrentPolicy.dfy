/** What an accepted instruction says about the policy now active. It is judged by the
    policy of its own epoch, which is the active one or the one before it: preprocess in
    internal/processors/instructions/instructions.go. */
module CurrentPolicy {
  import opened Wrappers
  import opened Weights
  import opened Wallets
  import opened Voters
  import opened Quorum
  import opened PolicyQuorums
  import opened PolicyChain
  import opened PolicyStorage

  /** A run of the node, and an instruction that passes after it: the active policy has
      epoch `active`, this threshold and total weight, and the instruction, which has no
      threshold of its own, names epoch `named`. */
  ghost predicate Passes(env: Env, ops: seq<Op>, d: Data, messages: seq<nat>, signatures: seq<nat>, recover: Recover,
                         signers: seq<Address>, p: SigningPolicy, named: nat, active: nat, threshold: Uint16, total: Uint16)
  {
    var s := After(env, ops);
    && (forall i :: 0 <= i < |ops| ==> OpOk(ops[i]))
    && Carried(s, d, messages, signatures, recover, signers, p) && PolicyRuled(d) && d.rewardEpochId == named
    && s.active.value.epoch == active && Has(s.active.value, threshold, total)
  }

  ghost predicate OutweighsActive(s: Policies, signers: seq<Address>) {
    s.active.Some? && PolicyOk(s.active.value) && WeightOf(s.active.value, signers) > s.active.value.threshold
  }

  ghost predicate MajorityOfActive(s: Policies, signers: seq<Address>) {
    s.active.Some? && PolicyOk(s.active.value) && 2 * WeightOf(s.active.value, signers) > Total(s.active.value.weights)
  }

  /** In every run, the signers of every instruction that passes outweigh the threshold of
      the policy then active. */
  ghost predicate ThresholdGuaranteed(named: nat, active: nat, threshold: Uint16, total: Uint16) {
    forall env, ops, d, messages, signatures, recover, signers, p ::
      Passes(env, ops, d, messages, signatures, recover, signers, p, named, active, threshold, total) ==>
        OutweighsActive(After(env, ops), signers)
  }

  /** In every run, they are more than half of the weight of the policy then active. */
  ghost predicate MajorityGuaranteed(named: nat, active: nat, threshold: Uint16, total: Uint16) {
    forall env, ops, d, messages, signatures, recover, signers, p ::
      Passes(env, ops, d, messages, signatures, recover, signers, p, named, active, threshold, total) ==>
        MajorityOfActive(After(env, ops), signers)
  }

  // ---- the active epoch -----------------------------------------------------------------------

  /** An instruction of the active epoch is judged by the active policy. */
  lemma UnderActivePolicy(env: Env, ops: seq<Op>, d: Data, messages: seq<nat>, signatures: seq<nat>, recover: Recover,
                          signers: seq<Address>, p: SigningPolicy, named: nat, active: nat, threshold: Uint16, total: Uint16)
    requires Passes(env, ops, d, messages, signatures, recover, signers, p, named, active, threshold, total)
    requires named + 1 != active || active >= UINT24_LIMIT
    ensures p == After(env, ops).active.value && named == active && OutweighsActive(After(env, ops), signers)
    ensures threshold > 0 && (threshold >= total / 2 ==> MajorityOfActive(After(env, ops), signers))
  {
    RunsKeepInv(env, ops);
    assert IsQuorum(d, signers, p);
  }

  // ---- a run for every pair of policies ---------------------------------------------------------

  /** Signatures and keys are written as the address they belong to. */
  const PLAIN_ENV := Env((p: SigningPolicy) => p.epoch + 1, (h, s) => Some(s), k => k)

  const PLAIN_RECOVER: Recover := (d, m, s) => Some(s)

  function KeysOf(p: SigningPolicy): seq<Option<PublicKey>> {
    seq(|p.voters|, i requires 0 <= i < |p.voters| => Some(p.voters[i]))
  }

  function FirstOp(p: SigningPolicy): Op {
    Initialize(Some(p), KeysOf(p), true, true)
  }

  lemma AfterFirst(p: SigningPolicy)
    requires PolicyOk(p)
    ensures var s := After(PLAIN_ENV, [FirstOp(p)]);
            s.active == Some(p) && s.stored == map[p.epoch := p] && s.initialHash != ZERO_HASH
  {
    var ops := [FirstOp(p)];
    assert ops[..0] == [];
    assert After(PLAIN_ENV, ops) == Step(EMPTY, PLAIN_ENV, FirstOp(p)).0;
    assert KeysFit(PLAIN_ENV, KeysOf(p), p);
  }

  /** The only voter of the first policy installs the second. */
  lemma AfterSecond(p: SigningPolicy, q: SigningPolicy, v: Address) returns (ops: seq<Op>)
    requires PolicyOk(p) && PolicyOk(q) && q.epoch == p.epoch + 1 && p.voters == [v] && p.weights[0] > p.threshold
    ensures forall i :: 0 <= i < |ops| ==> OpOk(ops[i])
    ensures var s := After(PLAIN_ENV, ops);
            s.active == Some(q) && p.epoch in s.stored && s.stored[p.epoch] == p
  {
    var op := Update(Some(q), [v], KeysOf(q), true, true);
    ops := [FirstOp(p), op];
    assert ops[..1] == [FirstOp(p)];
    AfterFirst(p);
    RunsKeepInv(PLAIN_ENV, ops[..1]);
    assert KeysFit(PLAIN_ENV, KeysOf(q), q);
    OneVoterInstalls(After(PLAIN_ENV, ops[..1]), PLAIN_ENV, 0, q, v, KeysOf(q));
    UpdateOutcome(After(PLAIN_ENV, ops[..1]), PLAIN_ENV, op);
    StepFrame(After(PLAIN_ENV, ops[..1]), PLAIN_ENV, op);
  }

  /** An instruction that one voter of its epoch's policy signs. */
  lemma SignedByOne(s: Policies, p: SigningPolicy, v: Address) returns (d: Data)
    requires PolicyOk(p) && v in p.voters && WeightOf(p, [v]) > p.threshold > 0
    requires s.active.Some? && (p.epoch == s.active.value.epoch || p.epoch + 1 == s.active.value.epoch)
    requires p.epoch in s.stored && s.stored[p.epoch] == p
    ensures d.rewardEpochId == p.epoch && PolicyRuled(d) && Carried(s, d, [0], [v], PLAIN_RECOVER, [v], p)
  {
    d := Data(p.epoch, Regular, 0, [], 0);
    CosignersInBounded([], [v]);
  }

  /** The previous policy's only voter is nobody under the active one. */
  lemma PreviousEpochFails(named: nat, threshold: Uint16, total: Uint16)
    requires named + 1 < UINT24_LIMIT
    ensures !ThresholdGuaranteed(named, named + 1, threshold, total) && !MajorityGuaranteed(named, named + 1, threshold, total)
  {
    var p, q := SigningPolicy(named, 1, [2], [2], 0), TwoVoters(threshold, total).(epoch := named + 1);
    TwoVotersWeigh(threshold, total);
    OneVoterPolicy(p);
    StrangersWeighNothing(q.voters, q.weights, [2], |q.voters|);
    var ops := AfterSecond(p, q, 2);
    var s := After(PLAIN_ENV, ops);
    var d := SignedByOne(s, p, 2);
    assert Passes(PLAIN_ENV, ops, d, [0], [2], PLAIN_RECOVER, [2], p, named, named + 1, threshold, total);
  }

  lemma OneVoterPolicy(p: SigningPolicy)
    requires p == SigningPolicy(p.epoch, 1, [2], [2], 0) && p.epoch < UINT24_LIMIT
    ensures PolicyOk(p) && WeightOf(p, [2]) == 2
  {
    assert p.weights[..0] == [] && p.voters[0] == 2;
    assert Total(p.weights) == 2;
    WeightOfOne(p, 0, 1);
  }

  /** Below half, one of two voters of the active policy is no majority. */
  lemma MinorityPasses(active: nat, threshold: Uint16, total: Uint16)
    requires active < UINT24_LIMIT && 0 < threshold < total / 2
    ensures !MajorityGuaranteed(active, active, threshold, total)
  {
    var p := TwoVoters(threshold, total).(epoch := active);
    TwoVotersWeigh(threshold, total);
    assert p.voters[0] == 0;
    WeightOfOne(p, 0, 2);
    AfterFirst(p);
    var ops := [FirstOp(p)];
    var d := SignedByOne(After(PLAIN_ENV, ops), p, 0);
    assert Passes(PLAIN_ENV, ops, d, [0], [0], PLAIN_RECOVER, [0], p, active, active, threshold, total);
  }

  // ---- exactly when ------------------------------------------------------------------------------

  /** Over all runs, passing means outweighing the threshold of the active policy exactly
      for instructions that do not name the epoch before it: within the epoch window, for
      those that name the active epoch. Epochs are 24-bit, so there are no others. */
  lemma ThresholdGuaranteedIff(named: nat, active: nat, threshold: Uint16, total: Uint16)
    ensures ThresholdGuaranteed(named, active, threshold, total) <==> named + 1 != active || active >= UINT24_LIMIT
  {
    if named + 1 == active < UINT24_LIMIT {
      PreviousEpochFails(named, threshold, total);
    } else {
      forall env, ops, d, messages, signatures, recover, signers, p
        | Passes(env, ops, d, messages, signatures, recover, signers, p, named, active, threshold, total)
        ensures OutweighsActive(After(env, ops), signers)
      {
        UnderActivePolicy(env, ops, d, messages, signatures, recover, signers, p, named, active, threshold, total);
      }
    }
  }

  /** Over all runs, passing means a majority of the active weight exactly for instructions
      that do not name the epoch before it, and, if they name the active one, under a
      threshold of at least half of the total, rounded down (or zero, when none passes). */
  lemma MajorityGuaranteedIff(named: nat, active: nat, threshold: Uint16, total: Uint16)
    ensures MajorityGuaranteed(named, active, threshold, total) <==>
      || active >= UINT24_LIMIT
      || (named + 1 != active && (named == active ==> threshold == 0 || threshold >= total / 2))
  {
    if named + 1 == active < UINT24_LIMIT {
      PreviousEpochFails(named, threshold, total);
    } else if named == active < UINT24_LIMIT && 0 < threshold < total / 2 {
      MinorityPasses(active, threshold, total);
    } else {
      forall env, ops, d, messages, signatures, recover, signers, p
        | Passes(env, ops, d, messages, signatures, recover, signers, p, named, active, threshold, total)
        ensures MajorityOfActive(After(env, ops), signers)
      {
        UnderActivePolicy(env, ops, d, messages, signatures, recover, signers, p, named, active, threshold, total);
      }
    }
  }
}
