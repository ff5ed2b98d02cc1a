/** From an instruction's signatures to what it may do: preprocess in
    internal/processors/instructions/instructions.go followed by the payment handler
    in internal/processors/instructions/signutils/processor.go or the proof handler
    in internal/processors/instructions/fdcutils/processor.go. */
module Instructions {
  import opened Wrappers
  import opened Field
  import opened Sets
  import opened Weights
  import opened Wallets
  import opened Voters
  import opened Quorum
  import opened Relay
  import opened Signing
  import opened PolicyChain
  import opened PolicyStorage

  /** What a payment instruction's message says: the wallet, and which machine is to sign
      with which key. */
  datatype Payment = Payment(walletId: Hash, pairs: seq<(Address, Uint64)>)

  /** The key ids meant for this machine, in order. */
  function KeyIdsFor(pairs: seq<(Address, Uint64)>, tee: Address): seq<Uint64> {
    if |pairs| == 0 then [] else
      var rest, last := KeyIdsFor(pairs[..|pairs| - 1], tee), pairs[|pairs| - 1];
      if last.0 == tee then rest + [last.1] else rest
  }

  lemma {:induction false} KeyIdsAreNamed(pairs: seq<(Address, Uint64)>, tee: Address, k: Uint64)
    ensures k in KeyIdsFor(pairs, tee) <==> (tee, k) in pairs
    decreases |pairs|
  {
    if |pairs| > 0 {
      KeyIdsAreNamed(pairs[..|pairs| - 1], tee, k);
      assert pairs == pairs[..|pairs| - 1] + [pairs[|pairs| - 1]];
    }
  }

  /** Pair by pair, in order: what one part names, then what the other names. */
  lemma {:induction false} KeyIdsInOrder(a: seq<(Address, Uint64)>, b: seq<(Address, Uint64)>, tee: Address)
    ensures KeyIdsFor(a + b, tee) == KeyIdsFor(a, tee) + KeyIdsFor(b, tee)
    ensures forall pair :: KeyIdsFor([pair], tee) == if pair.0 == tee then [pair.1] else []
    decreases |b|
  {
    forall pair: (Address, Uint64) ensures KeyIdsFor([pair], tee) == if pair.0 == tee then [pair.1] else [] {
      assert [pair][..0] == [];
    }
    if |b| == 0 {
      assert a + b == a;
    } else {
      KeyIdsInOrder(a, b[..|b| - 1], tee);
      assert (a + b)[..|a + b| - 1] == a + b[..|b| - 1];
    }
  }

  /** The owners of the key agreed to this use: it is an XRP key, its cosigners are the instruction's,
      its own threshold of them signed, and so did more provider weight than the
      policy asks for. */
  ghost predicate MayUse(w: WalletInfo, d: Data, signers: seq<Address>, p: SigningPolicy) {
    && w.keyType == XRP_TYPE && w.signingAlgo == XRP_SIGN_ALGO
    && multiset(d.cosigners) == multiset(w.cosigners)
    && |Common(w.cosigners, signers)| >= w.cosignersThreshold
    && |p.voters| == |p.weights| && WeightOf(p, signers) > p.threshold > 0
  }

  /** The key is that of a live wallet which the instruction names for this machine
      and may use. */
  ghost predicate Authorised(key: seq<Byte>, live: map<KeyIdPair, WalletInfo>, id: KeyIdPair, tee: Address,
                             pairs: seq<(Address, Uint64)>, d: Data, signers: seq<Address>, p: SigningPolicy)
  {
    id in live && live[id].privateKey == key && (tee, id.keyId) in pairs && MayUse(live[id], d, signers, p)
  }

  ghost predicate AuthorisedFrom(key: seq<Byte>, live: map<KeyIdPair, WalletInfo>, walletId: Hash, tee: Address,
                                 pairs: seq<(Address, Uint64)>, d: Data, signers: seq<Address>, p: SigningPolicy)
  {
    exists id: KeyIdPair :: id.walletId == walletId && Authorised(key, live, id, tee, pairs, d, signers, p)
  }

  lemma LoadedKeyAuthorised(live: map<KeyIdPair, WalletInfo>, id: KeyIdPair, tee: Address, pairs: seq<(Address, Uint64)>,
                            d: Data, signers: seq<Address>, p: SigningPolicy)
    requires PolicyOk(p) && Accepted(d, signers, p) && d.request.Regular?
    requires id in live && Usable(live[id], d) && id.keyId in KeyIdsFor(pairs, tee)
    ensures Authorised(live[id].privateKey, live, id, tee, pairs, d, signers, p)
  {
    KeyIdsAreNamed(pairs, tee, id.keyId);
    SigningAuthorised(d, signers, p, live[id]);
  }

  /** A live XRP key with these cosigners and this threshold, and a valid scalar. */
  ghost predicate Loadable(live: map<KeyIdPair, WalletInfo>, id: KeyIdPair, d: Data, isScalar: seq<Byte> -> bool) {
    && id in live && live[id].keyType == XRP_TYPE && live[id].signingAlgo == XRP_SIGN_ALGO
    && multiset(d.cosigners) == multiset(live[id].cosigners) && d.cosignersThreshold == live[id].cosignersThreshold
    && isScalar(live[id].privateKey)
  }

  /** All keys named for this machine, and at least one, can be loaded. */
  ghost predicate AllLoadable(payment: Payment, live: map<KeyIdPair, WalletInfo>, tee: Address, d: Data,
                              isScalar: seq<Byte> -> bool)
  {
    && (exists n :: (tee, n) in payment.pairs)
    && forall n :: (tee, n) in payment.pairs ==> Loadable(live, KeyIdPair(payment.walletId, n), d, isScalar)
  }

  lemma LoadableIff(payment: Payment, live: map<KeyIdPair, WalletInfo>, tee: Address, d: Data, isScalar: seq<Byte> -> bool,
                    keyIds: seq<Uint64>)
    requires NoDuplicates(d.cosigners) && keyIds == KeyIdsFor(payment.pairs, tee)
    ensures AllLoadable(payment, live, tee, d, isScalar) <==> |keyIds| > 0 && forall i :: 0 <= i < |keyIds| ==>
      var id := KeyIdPair(payment.walletId, keyIds[i]);
      id in live && Usable(live[id], d) && isScalar(live[id].privateKey)
  {
    forall n: Uint64 ensures n in keyIds <==> (tee, n) in payment.pairs {
      KeyIdsAreNamed(payment.pairs, tee, n);
    }
    forall n: Uint64 ensures var id := KeyIdPair(payment.walletId, n);
      Loadable(live, id, d, isScalar) <==> id in live && Usable(live[id], d) && isScalar(live[id].privateKey)
    {
      var id := KeyIdPair(payment.walletId, n);
      if id in live {
        MatchingIff(d.cosigners, live[id].cosigners, d.cosignersThreshold, live[id].cosignersThreshold);
      }
    }
    if |keyIds| > 0 {
      assert keyIds[0] in keyIds;
    }
    forall i | 0 <= i < |keyIds| ensures (tee, keyIds[i]) in payment.pairs {
      assert keyIds[i] in keyIds;
    }
  }

  method CollectKeyIds(pairs: seq<(Address, Uint64)>, tee: Address) returns (keyIds: seq<Uint64>)
    ensures keyIds == KeyIdsFor(pairs, tee)
  {
    keyIds := [];
    for i := 0 to |pairs|
      invariant keyIds == KeyIdsFor(pairs[..i], tee)
    {
      assert pairs[..i + 1][..i] == pairs[..i];
      if pairs[i].0 == tee {
        keyIds := keyIds + [pairs[i].1];
      }
    }
    assert pairs[..|pairs|] == pairs;
  }

  /** Every private key that a payment instruction loads may be used for it: the wallet and
      keys are those named in the message that its signers signed. */
  method LoadKeysForPayment(policies: Storage, env: Env, d: Data, wellFormed: bool, messages: seq<nat>,
                            signatures: seq<nat>, recover: Recover, decode: nat -> Option<Payment>,
                            live: map<KeyIdPair, WalletInfo>, tee: Address, isScalar: seq<Byte> -> bool)
    returns (r: Result<seq<seq<Byte>>>, signers: seq<Address>, p: SigningPolicy)
    requires Inv(policies.Value(), env) && d.request.Regular?
    ensures r.Ok? ==> Carried(policies.Value(), d, messages, signatures, recover, signers, p)
    ensures r.Ok? ==> |r.value| > 0 && decode(d.message).Some?
    ensures r.Ok? ==> forall k :: 0 <= k < |r.value| ==>
      var payment := decode(d.message).value;
      AuthorisedFrom(r.value[k], live, payment.walletId, tee, payment.pairs, d, signers, p)
    ensures r.Ok? ==>
      var payment := decode(d.message).value;
      var keyIds := KeyIdsFor(payment.pairs, tee);
      |r.value| == |keyIds| && forall k :: 0 <= k < |keyIds| ==>
        var id := KeyIdPair(payment.walletId, keyIds[k]); id in live && r.value[k] == live[id].privateKey
    ensures r.Ok? <==>
      && wellFormed && (exists signers, p :: Carried(policies.Value(), d, messages, signatures, recover, signers, p))
      && decode(d.message).Some? && AllLoadable(decode(d.message).value, live, tee, d, isScalar)
  {
    signers, p := [], SigningPolicy(0, 0, [], [], 0);
    var passed := policies.Preprocess(env, d, wellFormed, messages, signatures, recover);
    if passed.Err? {
      r := Err(passed.error);
      return;
    }
    signers, p := passed.value.0, passed.value.1;
    if decode(d.message).None? {
      r := Err("payment does not decode");
      return;
    }
    var payment := decode(d.message).value;
    var keyIds := CollectKeyIds(payment.pairs, tee);
    LoadableIff(payment, live, tee, d, isScalar, keyIds);
    if |keyIds| == 0 {
      r := Err("no keys for signing");
      return;
    }
    r := LoadPrivateKeys(live, payment.walletId, keyIds, d, isScalar);
    if r.Ok? {
      AllKeysAuthorised(r.value, live, payment.walletId, keyIds, tee, payment.pairs, d, signers, p);
    }
  }

  lemma AllKeysAuthorised(keys: seq<seq<Byte>>, live: map<KeyIdPair, WalletInfo>, walletId: Hash, keyIds: seq<Uint64>,
                          tee: Address, pairs: seq<(Address, Uint64)>, d: Data, signers: seq<Address>, p: SigningPolicy)
    requires PolicyOk(p) && Accepted(d, signers, p) && d.request.Regular? && keyIds == KeyIdsFor(pairs, tee)
    requires |keys| == |keyIds| && forall i :: 0 <= i < |keys| ==>
      var id := KeyIdPair(walletId, keyIds[i]);
      id in live && Usable(live[id], d) && keys[i] == live[id].privateKey
    ensures forall k :: 0 <= k < |keys| ==> AuthorisedFrom(keys[k], live, walletId, tee, pairs, d, signers, p)
  {
    forall k | 0 <= k < |keys| ensures AuthorisedFrom(keys[k], live, walletId, tee, pairs, d, signers, p) {
      LoadedKeyAuthorised(live, KeyIdPair(walletId, keyIds[k]), tee, pairs, d, signers, p);
    }
  }

  /** What a proof hands to the Relay weighs what passed the threshold: more than the
      exact share of the total that the request names. */
  method ProveForRelay(policies: Storage, env: Env, d: Data, wellFormed: bool, messages: seq<nat>,
                       signatures: seq<nat>, recover: Recover, verify: (Signature, Address) -> bool)
    returns (r: Result<(seq<IndexedSignature>, seq<Signature>)>, signers: seq<Address>, p: SigningPolicy)
    requires Inv(policies.Value(), env)
    ensures r.Ok? ==> Carried(policies.Value(), d, messages, signatures, recover, signers, p)
    ensures r.Ok? ==> StrictlyIncreasing(r.value.0) && Indices(r.value.0, p.voters, signers)
    ensures r.Ok? ==> WeightAlong(r.value.0, p.weights) == WeightOf(p, signers) > DataProvidersThreshold(d, p).value
    ensures r.Ok? <==> wellFormed && exists signers, p ::
      Carried(policies.Value(), d, messages, signatures, recover, signers, p) && AllVerify(verify, messages, signers)
    ensures r.Ok? ==> FiledRight(r.value.0, messages, signers, p.voters, |messages|)
    ensures r.Ok? ==> forall e :: e in r.value.0 ==> e.index < |p.voters| && verify(e.signature, p.voters[e.index])
    ensures r.Ok? ==> CosignersInOrder(r.value.1, messages, signers, d.cosigners, |messages|)
    ensures r.Ok? && Overrides(d) ==>
      WeightAlong(r.value.0, p.weights) * MAX_BIPS > Total(p.weights) * d.request.thresholdBips.value
  {
    signers, p := [], SigningPolicy(0, 0, [], [], 0);
    var passed := policies.Preprocess(env, d, wellFormed, messages, signatures, recover);
    if passed.Err? {
      r := Err(passed.error);
      return;
    }
    signers, p := passed.value.0, passed.value.1;
    // The variable message of a proof instruction is the signer's signature for the Relay.
    r := CheckResponseSignatures(verify, messages, passed.value.0, passed.value.1, d.cosigners);
    if r.Ok? {
      OverrideReached(d, signers, p);
      assert AllVerify(verify, messages, signers);
    } else {
      forall signers', p' | Carried(policies.Value(), d, messages, signatures, recover, signers', p')
        ensures !AllVerify(verify, messages, signers')
      {
        CarriedForOne(policies.Value(), d, messages, signatures, recover, signers, p, signers', p');
      }
    }
  }

  /** Every variable message is a signature of its own signer. */
  ghost predicate AllVerify(verify: (Signature, Address) -> bool, messages: seq<Signature>, signers: seq<Address>) {
    |messages| == |signers| && forall i :: 0 <= i < |messages| ==> verify(messages[i], signers[i])
  }

  /** Whoever passes an override weighs more than the exact share it names. */
  lemma OverrideReached(d: Data, signers: seq<Address>, p: SigningPolicy)
    requires PolicyOk(p) && Accepted(d, signers, p)
    ensures Overrides(d) ==> WeightOf(p, signers) * MAX_BIPS > Total(p.weights) * d.request.thresholdBips.value
  {
    if Overrides(d) {
      ThresholdIsExact(Total(p.weights), d.request.thresholdBips.value, WeightOf(p, signers));
    }
  }

  predicate Overrides(d: Data) {
    d.request.Prove? && d.request.thresholdBips.Some? && d.request.thresholdBips.value > 0
  }
}
