/** The policy store as it is: fields that handlers update in place.
    internal/policy/policy.go, internal/processors/direct/policyutils/processor.go
    and preprocess in internal/processors/instructions/instructions.go. */
module PolicyStorage {
  import opened Wrappers
  import opened Field
  import opened Wallets
  import opened Voters
  import opened Quorum
  import opened PolicyChain

  method ProcessPolicyPublicKeys(env: Env, keys: seq<Option<PublicKey>>, p: SigningPolicy)
    returns (r: Result<map<Address, PublicKey>>)
    ensures r.Ok? <==> KeysFit(env, keys, p)
    ensures r.Ok? ==> r.value == KeyMap(env, keys, |keys|)
  {
    if |keys| != |p.voters| {
      return Err("the number of public keys and the number of voters do not match");
    }
    var m: map<Address, PublicKey> := map[];
    for i := 0 to |keys|
      invariant forall k :: 0 <= k < i ==> keys[k].Some? && env.address(keys[k].value) == p.voters[k]
      invariant m == KeyMap(env, keys, i)
    {
      if keys[i].None? {
        return Err("invalid public key");
      }
      if env.address(keys[i].value) != p.voters[i] {
        return Err("public key and address do not match");
      }
      m := m[p.voters[i] := keys[i].value];
    }
    return Ok(m);
  }

  /** Signatures of distinct signers, who meet the thresholds under the policy stored
      for the instruction's epoch, which is the active one or the one before it. */
  ghost predicate Carried(s: Policies, d: Data, messages: seq<nat>, signatures: seq<nat>, recover: Recover,
                          signers: seq<Address>, p: SigningPolicy)
  {
    && |signers| == |signatures| == |messages| && NoDuplicates(signers)
    && (forall i :: 0 <= i < |signatures| ==> recover(d, messages[i], signatures[i]) == Some(signers[i]))
    && s.active.Some? && (d.rewardEpochId == s.active.value.epoch || d.rewardEpochId + 1 == s.active.value.epoch)
    && d.rewardEpochId in s.stored && s.stored[d.rewardEpochId] == p
    && PolicyOk(p) && Accepted(d, signers, p)
  }

  class Storage {
    var initialPolicyId: nat
    var initialPolicyHash: Hash
    var active: Option<SigningPolicy>
    var activePublicKeys: map<Address, PublicKey>
    var signingPolicies: map<nat, SigningPolicy>

    function Value(): Policies
      reads this
    {
      Policies(initialPolicyId, initialPolicyHash, active, activePublicKeys, signingPolicies)
    }

    constructor ()
      ensures Value() == EMPTY
    {
      initialPolicyId, initialPolicyHash, active := 0, ZERO_HASH, None;
      activePublicKeys, signingPolicies := map[], map[];
    }

    method SetActiveSigningPolicy(p: SigningPolicy) returns (r: Result<()>)
      modifies `active, `signingPolicies
      ensures r.Ok? <==> initialPolicyHash != ZERO_HASH
      ensures r.Ok? ==> active == Some(p) && signingPolicies == old(signingPolicies)[p.epoch := p]
      ensures r.Err? ==> unchanged(this)
    {
      if initialPolicyHash == ZERO_HASH {
        return Err("signing policy not initialized yet");
      }
      active := Some(p);
      signingPolicies := signingPolicies[p.epoch := p];
      return Ok(());
    }

    method SetActiveSigningPolicyPublicKeys(keys: map<Address, PublicKey>) returns (r: Result<()>)
      modifies `activePublicKeys
      ensures r.Ok? <==> initialPolicyHash != ZERO_HASH
      ensures activePublicKeys == if r.Ok? then keys else old(activePublicKeys)
    {
      if initialPolicyHash == ZERO_HASH {
        return Err("signing policy not initialized yet");
      }
      activePublicKeys := keys;
      return Ok(());
    }

    method SetInitialPolicy(env: Env, p: SigningPolicy, keys: map<Address, PublicKey>) returns (r: Result<()>)
      modifies this
      ensures r.Ok? <==> old(active).None? && env.hash(p) != ZERO_HASH
      ensures r.Ok? ==> (Value(), true) == Install(old(Value()), env, p, keys)
      ensures old(active).Some? ==> unchanged(this)
    {
      if active.Some? {
        return Err("signing policy already initialized");
      }
      initialPolicyId := p.epoch;
      initialPolicyHash := env.hash(p);
      r := SetActiveSigningPolicy(p);
      if r.Err? {
        return;
      }
      r := SetActiveSigningPolicyPublicKeys(keys);
    }

    method DestroyState()
      modifies this
      ensures Value() == EMPTY
    {
      active := None;
      signingPolicies := map[];
      activePublicKeys := map[];
      initialPolicyId := 0;
      initialPolicyHash := ZERO_HASH;
    }

    method InitializePolicy(env: Env, op: Op) returns (r: Result<()>)
      requires op.Initialize? && OpOk(op)
      modifies this
      ensures (Value(), r.Ok?) == Step(old(Value()), env, op)
    {
      if active.Some? {
        return Err("policy already initialized");
      }
      if op.policy.None? {
        return Err("policy does not decode");
      }
      var p := op.policy.value;
      var keys := ProcessPolicyPublicKeys(env, op.keys, p);
      if keys.Err? {
        return Err(keys.error);
      }
      if !op.timely {
        return Err("context deadline exceeded");
      }
      if !op.chainKnown {
        return Err("chain id not set");
      }
      r := SetInitialPolicy(env, p, keys.value);
      if r.Err? {
        DestroyState();
      }
    }

    /** The signers of an update, each a voter of the active policy. */
    method CheckSignatures(env: Env, current: SigningPolicy, p: SigningPolicy, signatures: seq<nat>)
      returns (r: Result<seq<Address>>)
      ensures r.Ok? <==> AllByVoters(env, current, p, signatures)
      ensures r.Ok? ==> r.value == SignersOf(env, current, p, signatures)
    {
      var signers: seq<Address> := [];
      for i := 0 to |signatures|
        invariant |signers| == i
        invariant forall k :: 0 <= k < i ==>
          env.recover(env.hash(p), signatures[k]) == Some(signers[k]) && signers[k] in current.voters
      {
        var signer := env.recover(env.hash(p), signatures[i]);
        if signer.None? || signer.value !in current.voters {
          return Err("not a voter");
        }
        signers := signers + [signer.value];
      }
      return Ok(signers);
    }

    method UpdatePolicy(env: Env, op: Op) returns (r: Result<()>)
      requires op.Update? && OpOk(op) && Inv(Value(), env)
      modifies this
      ensures (Value(), r.Ok?) == Step(old(Value()), env, op)
    {
      if op.policy.None? {
        return Err("policy does not decode");
      }
      var p := op.policy.value;
      if active.None? {
        return Err("signing policy not initialized");
      }
      var current := active.value;
      assert current.epoch in signingPolicies;
      if p.epoch != (current.epoch + 1) % UINT32_LIMIT {
        return Err("policy is not active");
      }
      if !op.chainKnown {
        return Err("chain id not set");
      }
      var signers := CheckSignatures(env, current, p, op.signatures);
      if signers.Err? {
        return Err(signers.error);
      }
      var weight := WeightOfSigners(signers.value, current);
      if weight <= current.threshold {
        return Err("threshold for updating policy not reached");
      }
      var keys := ProcessPolicyPublicKeys(env, op.keys, p);
      if keys.Err? {
        return Err(keys.error);
      }
      if !op.timely {
        return Err("context deadline exceeded");
      }
      r := SetActiveSigningPolicy(p);
      if r.Ok? {
        r := SetActiveSigningPolicyPublicKeys(keys.value);
      }
    }

    /** The key of every voter, in voter order. In a reachable store it never fails:
        the branch for a missing key is dead. */
    method ActiveSigningPolicyPublicKeys() returns (r: Result<seq<PublicKey>>)
      requires active.Some?
      ensures r.Ok? <==> forall i :: 0 <= i < |active.value.voters| ==> active.value.voters[i] in activePublicKeys
      ensures r.Ok? ==>
        && |r.value| == |active.value.voters|
        && forall i :: 0 <= i < |r.value| ==> r.value[i] == activePublicKeys[active.value.voters[i]]
      ensures forall env :: Inv(Value(), env) ==>
        r.Ok? && forall i :: 0 <= i < |r.value| ==> env.address(r.value[i]) == active.value.voters[i]
    {
      var keys: seq<PublicKey> := [];
      var voters := active.value.voters;
      for i := 0 to |voters|
        invariant |keys| == i
        invariant forall k :: 0 <= k < i ==> voters[k] in activePublicKeys && keys[k] == activePublicKeys[voters[k]]
      {
        if voters[i] !in activePublicKeys {
          return Err("address not in policy public key map, internal error");
        }
        keys := keys + [activePublicKeys[voters[i]]];
      }
      return Ok(keys);
    }

    /** preprocess: the policy of the instruction's epoch, the distinct signers and the
        thresholds. `wellFormed` stands for validateInstructionData. What passes is
        within the epoch window and has its quorum, and everything that is passes. */
    method Preprocess(env: Env, d: Data, wellFormed: bool, messages: seq<nat>, signatures: seq<nat>, recover: Recover)
      returns (r: Result<(seq<Address>, SigningPolicy)>)
      requires Inv(Value(), env)
      ensures r.Ok? ==> Carried(Value(), d, messages, signatures, recover, r.value.0, r.value.1)
      ensures r.Ok? <==> wellFormed && exists signers, p :: Carried(Value(), d, messages, signatures, recover, signers, p)
    {
      EpochWindow(Value(), env, d.rewardEpochId);
      var policy :- PolicyForInstruction(Value(), d.rewardEpochId);
      if !wellFormed {
        return Err("invalid instruction data");
      }
      var signers := SignaturesToSigners(d, messages, signatures, recover);
      if signers.Err? {
        NoSigners(Value(), d, messages, signatures, recover);
        return Err(signers.error);
      }
      var checked := CheckThresholds(d, signers.value, policy);
      if checked.Err? {
        NotAccepted(Value(), d, messages, signatures, recover, signers.value, policy);
        return Err(checked.error);
      }
      assert Carried(Value(), d, messages, signatures, recover, signers.value, policy);
      return Ok((signers.value, policy));
    }
  }

  /** Any run of the two handlers on a new storage ends where the plain steps end. */
  method Execute(env: Env, ops: seq<Op>) returns (s: Storage)
    requires forall i :: 0 <= i < |ops| ==> OpOk(ops[i])
    ensures s.Value() == After(env, ops) && Inv(s.Value(), env)
  {
    s := new Storage();
    for i := 0 to |ops|
      invariant fresh(s) && s.Value() == After(env, ops[..i]) && Inv(s.Value(), env)
    {
      assert ops[..i + 1][..i] == ops[..i];
      StepKeepsInv(s.Value(), env, ops[i]);
      if ops[i].Initialize? {
        var _ := s.InitializePolicy(env, ops[i]);
      } else {
        var _ := s.UpdatePolicy(env, ops[i]);
      }
    }
    assert ops[..|ops|] == ops;
  }

  lemma NoSigners(s: Policies, d: Data, messages: seq<nat>, signatures: seq<nat>, recover: Recover)
    requires
      || |messages| != |signatures|
      || (exists i :: 0 <= i < |signatures| && recover(d, messages[i], signatures[i]).None?)
      || (exists i, j :: 0 <= i < j < |signatures| && recover(d, messages[i], signatures[i]) == recover(d, messages[j], signatures[j]))
    ensures forall signers, p :: !Carried(s, d, messages, signatures, recover, signers, p)
  {
  }

  /** Signatures carry an instruction for one list of signers and one policy only. */
  lemma CarriedForOne(s: Policies, d: Data, messages: seq<nat>, signatures: seq<nat>, recover: Recover,
                      signers: seq<Address>, p: SigningPolicy, signers': seq<Address>, p': SigningPolicy)
    requires Carried(s, d, messages, signatures, recover, signers, p)
    requires Carried(s, d, messages, signatures, recover, signers', p')
    ensures signers == signers' && p == p'
  {
  }

  /** There is only one candidate for the signers and one for the policy. */
  lemma NotAccepted(s: Policies, d: Data, messages: seq<nat>, signatures: seq<nat>, recover: Recover,
                    signers: seq<Address>, p: SigningPolicy)
    requires |signers| == |signatures| == |messages|
    requires forall i :: 0 <= i < |signatures| ==> recover(d, messages[i], signatures[i]) == Some(signers[i])
    requires d.rewardEpochId in s.stored && s.stored[d.rewardEpochId] == p && PolicyOk(p) && !Accepted(d, signers, p)
    ensures forall signers', p' :: !Carried(s, d, messages, signatures, recover, signers', p')
  {
    forall signers', p' ensures !Carried(s, d, messages, signatures, recover, signers', p') {
      assert |signers'| == |signers| && (forall i :: 0 <= i < |signers| ==> signers'[i] == signers[i]) ==> signers' == signers;
    }
  }
}
