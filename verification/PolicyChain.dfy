/** The store of signing policies, on values: internal/policy/policy.go and
    internal/processors/direct/policyutils/processor.go. Both handlers hold the
    store's lock, so a run is a sequence of whole steps. */
module PolicyChain {
  import opened Wrappers
  import opened Field
  import opened Wallets
  import opened Voters

  /** The hash a policy is signed under on this chain, the signer a signature over
      such a hash recovers to, and the address of a public key. */
  datatype Env = Env(
    hash: SigningPolicy -> Hash,
    recover: (Hash, nat) -> Option<Address>,
    address: PublicKey -> Address)

  datatype Policies = Policies(
    initialId: nat,
    initialHash: Hash,
    active: Option<SigningPolicy>,
    activeKeys: map<Address, PublicKey>,
    stored: map<nat, SigningPolicy>)

  const EMPTY := Policies(0, ZERO_HASH, None, map[], map[])

  /** What a handler is given: the decoded policy, the parsed public keys, for an
      update the signatures, whether the node knows its chain, and whether the
      request is still timely. */
  datatype Op =
    | Initialize(policy: Option<SigningPolicy>, keys: seq<Option<PublicKey>>, chainKnown: bool, timely: bool)
    | Update(policy: Option<SigningPolicy>, signatures: seq<nat>, keys: seq<Option<PublicKey>>, chainKnown: bool, timely: bool)

  ghost predicate OpOk(op: Op) {
    op.policy.Some? ==> PolicyOk(op.policy.value)
  }

  // ---- the checks ------------------------------------------------------------------------

  /** One parsed key per voter, in voter order. */
  predicate KeysFit(env: Env, keys: seq<Option<PublicKey>>, p: SigningPolicy) {
    && |keys| == |p.voters|
    && forall i :: 0 <= i < |keys| ==> keys[i].Some? && env.address(keys[i].value) == p.voters[i]
  }

  /** The map processPolicyPublicKeys builds from the first n keys. */
  function KeyMap(env: Env, keys: seq<Option<PublicKey>>, n: nat): map<Address, PublicKey>
    requires n <= |keys| && forall i :: 0 <= i < n ==> keys[i].Some?
  {
    if n == 0 then map[] else KeyMap(env, keys, n - 1)[env.address(keys[n - 1].value) := keys[n - 1].value]
  }

  /** Every signature over the hash of `next` recovers to a voter of `p`. */
  predicate AllByVoters(env: Env, p: SigningPolicy, next: SigningPolicy, signatures: seq<nat>) {
    forall i :: 0 <= i < |signatures| ==>
      env.recover(env.hash(next), signatures[i]).Some? && env.recover(env.hash(next), signatures[i]).value in p.voters
  }

  /** Whom the signatures recover to, in order. */
  function SignersOf(env: Env, p: SigningPolicy, next: SigningPolicy, signatures: seq<nat>): (signers: seq<Address>)
    requires AllByVoters(env, p, next, signatures)
    ensures |signers| == |signatures|
  {
    seq(|signatures|, i requires 0 <= i < |signatures| => env.recover(env.hash(next), signatures[i]).value)
  }

  /** These signatures approve `next` under `p`: they are all voters' of `p`, and the
      voters they recover to weigh more than its threshold. */
  predicate Approves(env: Env, p: SigningPolicy, next: SigningPolicy, signatures: seq<nat>) {
    && |p.voters| == |p.weights|
    && AllByVoters(env, p, next, signatures)
    && WeightOf(p, SignersOf(env, p, next, signatures)) > p.threshold
  }

  // ---- the steps -------------------------------------------------------------------------

  /** SetInitialPolicy on an uninitialised store, then DestroyState if it failed. */
  function Install(s: Policies, env: Env, p: SigningPolicy, keys: map<Address, PublicKey>): (Policies, bool) {
    if env.hash(p) == ZERO_HASH then (EMPTY, false)
    else (Policies(p.epoch, env.hash(p), Some(p), keys, s.stored[p.epoch := p]), true)
  }

  function Step(s: Policies, env: Env, op: Op): (Policies, bool) {
    if op.policy.None? then (s, false) else
      var p := op.policy.value;
      match op
      case Initialize(_, keys, chainKnown, timely) =>
        if s.active.Some? || !KeysFit(env, keys, p) || !timely || !chainKnown then (s, false)
        else Install(s, env, p, KeyMap(env, keys, |keys|))
      case Update(_, signatures, keys, chainKnown, timely) =>
        if s.active.None? || p.epoch != (s.active.value.epoch + 1) % UINT32_LIMIT || !chainKnown
           || !Approves(env, s.active.value, p, signatures) || !KeysFit(env, keys, p) || !timely || s.initialHash == ZERO_HASH
        then (s, false)
        else (s.(active := Some(p), activeKeys := KeyMap(env, keys, |keys|), stored := s.stored[p.epoch := p]), true)
  }

  // ---- the invariant ----------------------------------------------------------------------

  /** Either nothing is set, or the stored epochs run from the initial to the active
      one without a gap, and there is a key for every voter of the active policy. */
  ghost predicate Inv(s: Policies, env: Env) {
    if s.active.None? then s == EMPTY else
      && s.initialHash != ZERO_HASH
      && s.initialId <= s.active.value.epoch
      && (forall e :: e in s.stored <==> s.initialId <= e <= s.active.value.epoch)
      && (forall e :: e in s.stored ==> PolicyOk(s.stored[e]) && s.stored[e].epoch == e)
      && s.stored[s.active.value.epoch] == s.active.value
      && VoterKeys(s.active.value, s.activeKeys, env)
  }

  ghost predicate VoterKeys(p: SigningPolicy, keys: map<Address, PublicKey>, env: Env) {
    forall i :: 0 <= i < |p.voters| ==> p.voters[i] in keys && env.address(keys[p.voters[i]]) == p.voters[i]
  }

  lemma {:induction false} KeyMapCovers(env: Env, keys: seq<Option<PublicKey>>, n: nat)
    requires n <= |keys| && forall i :: 0 <= i < n ==> keys[i].Some?
    ensures forall i :: 0 <= i < n ==> env.address(keys[i].value) in KeyMap(env, keys, n)
    ensures forall a :: a in KeyMap(env, keys, n) ==> env.address(KeyMap(env, keys, n)[a]) == a
  {
    if n > 0 {
      KeyMapCovers(env, keys, n - 1);
    }
  }

  lemma StepKeepsInv(s: Policies, env: Env, op: Op)
    requires Inv(s, env) && OpOk(op)
    ensures Inv(Step(s, env, op).0, env)
  {
    if Step(s, env, op).1 {
      KeyMapCovers(env, op.keys, |op.keys|);
      if op.Update? {
        assert s.active.value.epoch in s.stored;
      }
    }
  }

  /** The signatures come, in order, from these voters of `p`, whose weight exceeds its
      threshold. */
  ghost predicate ApprovedBy(env: Env, p: SigningPolicy, next: SigningPolicy, signatures: seq<nat>, signers: seq<Address>) {
    && |signers| == |signatures| && |p.voters| == |p.weights|
    && (forall i :: 0 <= i < |signatures| ==>
          env.recover(env.hash(next), signatures[i]) == Some(signers[i]) && signers[i] in p.voters)
    && WeightOf(p, signers) > p.threshold
  }

  lemma ApprovesIff(env: Env, p: SigningPolicy, next: SigningPolicy, signatures: seq<nat>)
    ensures Approves(env, p, next, signatures) <==> exists signers :: ApprovedBy(env, p, next, signatures, signers)
  {
    if Approves(env, p, next, signatures) {
      assert ApprovedBy(env, p, next, signatures, SignersOf(env, p, next, signatures));
    }
    forall signers | ApprovedBy(env, p, next, signatures, signers) ensures Approves(env, p, next, signatures) {
      assert AllByVoters(env, p, next, signatures);
      assert SignersOf(env, p, next, signatures) == signers;
    }
  }

  /** An initialisation takes effect exactly on an empty store, in time, on a node that knows
      its chain, with one matching key per voter; it then is the initial, active and only
      policy, with the keys of its voters. */
  lemma InitializeOutcome(s: Policies, env: Env, op: Op)
    requires Inv(s, env) && OpOk(op) && op.Initialize? && op.policy.Some?
    ensures var p, (t, ok) := op.policy.value, Step(s, env, op);
            && (ok <==> s.active.None? && op.timely && op.chainKnown && env.hash(p) != ZERO_HASH
                        && |op.keys| == |p.voters|
                        && forall i :: 0 <= i < |op.keys| ==> op.keys[i].Some? && env.address(op.keys[i].value) == p.voters[i])
            && (ok ==> && t.active == Some(p) && t.stored == map[p.epoch := p]
                       && t.initialId == p.epoch && t.initialHash == env.hash(p))
  {
  }

  /** The keys that go with a policy are those the operation brought, each under its voter. */
  lemma KeysAreFiled(s: Policies, env: Env, op: Op, i: nat)
    requires Inv(s, env) && OpOk(op) && op.policy.Some? && Step(s, env, op).1 && i < |op.policy.value.voters|
    ensures var t, v := Step(s, env, op).0, op.policy.value.voters[i];
            |op.keys| == |op.policy.value.voters| && v in t.activeKeys && op.keys[i] == Some(t.activeKeys[v])
  {
    KeyMapFiles(env, op.keys, op.policy.value.voters, |op.keys|, i);
  }

  lemma {:induction false} KeyMapFiles(env: Env, keys: seq<Option<PublicKey>>, voters: seq<Address>, n: nat, i: nat)
    requires i < n <= |keys| == |voters| && NoDuplicates(voters)
    requires forall k :: 0 <= k < n ==> keys[k].Some? && env.address(keys[k].value) == voters[k]
    ensures voters[i] in KeyMap(env, keys, n) && KeyMap(env, keys, n)[voters[i]] == keys[i].value
  {
    if i < n - 1 {
      KeyMapFiles(env, keys, voters, n - 1, i);
      assert voters[i] != voters[n - 1];
    }
  }

  /** An update takes effect exactly when it is the next epoch's policy, its own
      signatures approve it under the active policy, and its keys are the new voters';
      it then follows the active policy in the store. */
  lemma UpdateOutcome(s: Policies, env: Env, op: Op)
    requires Inv(s, env) && OpOk(op) && op.Update? && op.policy.Some?
    ensures var p, (t, ok) := op.policy.value, Step(s, env, op);
            && (ok <==> s.active.Some? && p.epoch == s.active.value.epoch + 1 && op.chainKnown && op.timely
                        && (exists signers :: ApprovedBy(env, s.active.value, p, op.signatures, signers))
                        && |op.keys| == |p.voters|
                        && forall i :: 0 <= i < |op.keys| ==> op.keys[i].Some? && env.address(op.keys[i].value) == p.voters[i])
            && (ok ==> && t.active == Some(p) && p.epoch in t.stored && t.stored[p.epoch] == p
                       && p.epoch > 0 && p.epoch - 1 in t.stored && t.stored[p.epoch - 1] == s.active.value)
  {
    if s.active.Some? {
      assert s.active.value.epoch in s.stored;
      ApprovesIff(env, s.active.value, op.policy.value, op.signatures);
    }
  }

  /** No stored policy is ever replaced or dropped, and a handler that fails changes nothing. */
  lemma StepFrame(s: Policies, env: Env, op: Op)
    requires Inv(s, env) && OpOk(op)
    ensures !Step(s, env, op).1 ==> Step(s, env, op).0 == s
    ensures forall e :: e in s.stored ==> e in Step(s, env, op).0.stored && Step(s, env, op).0.stored[e] == s.stored[e]
    ensures s.active.Some? ==>
      && Step(s, env, op).0.active.Some? && Step(s, env, op).0.initialId == s.initialId
      && s.active.value.epoch <= Step(s, env, op).0.active.value.epoch <= s.active.value.epoch + 1
  {
  }

  // ---- whole runs ---------------------------------------------------------------------------

  function After(env: Env, ops: seq<Op>): Policies {
    if |ops| == 0 then EMPTY else Step(After(env, ops[..|ops| - 1]), env, ops[|ops| - 1]).0
  }

  /** Every reachable store satisfies the invariant. */
  lemma {:induction false} RunsKeepInv(env: Env, ops: seq<Op>)
    requires forall i :: 0 <= i < |ops| ==> OpOk(ops[i])
    ensures Inv(After(env, ops), env)
  {
    if |ops| > 0 {
      RunsKeepInv(env, ops[..|ops| - 1]);
      StepKeepsInv(After(env, ops[..|ops| - 1]), env, ops[|ops| - 1]);
    }
  }

  /** What was stored early in a run is still there, unchanged, at its end. */
  lemma {:induction false} PoliciesPersist(env: Env, ops: seq<Op>, i: nat, e: nat)
    requires i <= |ops| && (forall k :: 0 <= k < |ops| ==> OpOk(ops[k])) && e in After(env, ops[..i]).stored
    ensures e in After(env, ops).stored && After(env, ops).stored[e] == After(env, ops[..i]).stored[e]
    decreases |ops|
  {
    if i == |ops| {
      assert ops[..i] == ops;
    } else {
      var before := ops[..|ops| - 1];
      assert before[..i] == ops[..i];
      PoliciesPersist(env, before, i, e);
      RunsKeepInv(env, before);
      StepFrame(After(env, before), env, ops[|ops| - 1]);
    }
  }

  /** The i-th operation of the run asked for the policy of epoch e while the policy of
      epoch e - 1 was active, with signatures that approve it under that one. */
  ghost predicate ApprovedAt(env: Env, ops: seq<Op>, i: nat, s: Policies, e: nat, signers: seq<Address>) {
    && i < |ops| && ops[i].Update? && e > 0 && e in s.stored && e - 1 in s.stored
    && ops[i].policy == Some(s.stored[e])
    && After(env, ops[..i]).active == Some(s.stored[e - 1])
    && ApprovedBy(env, s.stored[e - 1], s.stored[e], ops[i].signatures, signers)
  }

  /** Walking back from any stored policy, every link was approved, by signatures that
      the run presented for it, under its own predecessor, down to the initial policy. */
  lemma {:induction false} ChainOfApproval(env: Env, ops: seq<Op>, e: nat) returns (i: nat, signers: seq<Address>)
    requires forall k :: 0 <= k < |ops| ==> OpOk(ops[k])
    requires e in After(env, ops).stored && e != After(env, ops).initialId
    ensures ApprovedAt(env, ops, i, After(env, ops), e, signers)
    decreases |ops|
  {
    assert |ops| > 0;
    var n := |ops| - 1;
    var before, op := ops[..n], ops[n];
    var s := After(env, before);
    RunsKeepInv(env, before);
    StepFrame(s, env, op);
    if e in s.stored {
      i, signers := ChainOfApproval(env, before, e);
      assert before[..i] == ops[..i];
    } else {
      i := n;
      if op.Update? && op.policy.Some? {
        UpdateOutcome(s, env, op);
        signers :| ApprovedBy(env, s.active.value, op.policy.value, op.signatures, signers);
      }
    }
  }

  /** The initial policy is the one that an Initialize operation brought to an empty store. */
  lemma {:induction false} InitialWasInitialized(env: Env, ops: seq<Op>) returns (i: nat)
    requires (forall k :: 0 <= k < |ops| ==> OpOk(ops[k])) && After(env, ops).active.Some?
    ensures i < |ops| && ops[i].Initialize? && After(env, ops[..i]) == EMPTY && ops[i].policy.Some?
    ensures var t, p := After(env, ops), ops[i].policy.value;
            t.initialId == p.epoch && t.initialHash == env.hash(p) && p.epoch in t.stored && t.stored[p.epoch] == p
    decreases |ops|
  {
    var n := |ops| - 1;
    var before := ops[..n];
    var s := After(env, before);
    RunsKeepInv(env, before);
    StepFrame(s, env, ops[n]);
    if s.active.Some? {
      i := InitialWasInitialized(env, before);
      assert before[..i] == ops[..i];
    } else {
      i := n;
    }
  }

  // ---- a single signature ---------------------------------------------------------------------

  /** One voter alone installs the next policy exactly when it outweighs the active
      threshold, so under a zero threshold every voter of positive weight does. Nothing
      is asked of the threshold of the policy that comes in. */
  lemma OneVoterInstalls(s: Policies, env: Env, i: nat, p: SigningPolicy, sig: nat, keys: seq<Option<PublicKey>>)
    requires Inv(s, env) && s.active.Some? && PolicyOk(p) && i < |s.active.value.voters|
    requires env.recover(env.hash(p), sig) == Some(s.active.value.voters[i])
    requires p.epoch == s.active.value.epoch + 1 && KeysFit(env, keys, p)
    ensures Step(s, env, Update(Some(p), [sig], keys, true, true)).1 <==>
      s.active.value.weights[i] > s.active.value.threshold
  {
    var a, op := s.active.value, Update(Some(p), [sig], keys, true, true);
    assert a.epoch in s.stored;
    UpdateOutcome(s, env, op);
    ApprovesIff(env, a, p, [sig]);
    assert AllByVoters(env, a, p, [sig]);
    assert SignersOf(env, a, p, [sig]) == [a.voters[i]];
    WeightOfOne(a, i, |a.voters|);
  }

  // ---- instructions against the store ---------------------------------------------------------

  /** checkPolicyValidity, in uint32. */
  predicate PolicyNotTooOld(policyId: nat, activeId: nat) {
    !(activeId > 0 && policyId < activeId - 1)
  }

  /** The policy lookups at the start of preprocess. */
  function PolicyForInstruction(s: Policies, epoch: nat): Result<SigningPolicy> {
    if epoch !in s.stored then Err("policy of the given reward epoch not in the storage")
    else if s.active.None? then Err("signing policy not initialized")
    else if !PolicyNotTooOld(s.stored[epoch].epoch, s.active.value.epoch) then Err("signing policy too old")
    else Ok(s.stored[epoch])
  }

  /** An instruction that passes names the active epoch or the one before it, and is
      judged by the policy stored for it. */
  lemma EpochWindow(s: Policies, env: Env, epoch: nat)
    requires Inv(s, env)
    ensures PolicyForInstruction(s, epoch).Ok? <==>
      s.active.Some? && epoch in s.stored && (epoch == s.active.value.epoch || epoch + 1 == s.active.value.epoch)
    ensures PolicyForInstruction(s, epoch).Ok? ==>
      PolicyForInstruction(s, epoch).value.epoch == epoch && PolicyOk(PolicyForInstruction(s, epoch).value)
  {
  }
}
