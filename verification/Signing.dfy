/** Which keys a payment instruction may use: CheckMatchingCosigners in
    pkg/processorutils/processutils.go and loadPrivateKeys in
    internal/processors/instructions/signutils/sigutils.go. */
module Signing {
  import opened Wrappers
  import opened Field
  import opened Sets
  import opened Wallets
  import opened Voters
  import opened Quorum

  predicate Matching(expected: seq<Address>, cosigners: seq<Address>, expectedThreshold: Uint64, threshold: Uint64) {
    && (forall i :: 0 <= i < |expected| ==> expected[i] in cosigners)
    && |expected| == |cosigners|
    && expectedThreshold == threshold
  }

  method CheckMatchingCosigners(expected: seq<Address>, cosigners: seq<Address>, expectedThreshold: Uint64, threshold: Uint64)
    returns (r: Result<()>)
    ensures r.Ok? <==> Matching(expected, cosigners, expectedThreshold, threshold)
  {
    for i := 0 to |expected|
      invariant forall k :: 0 <= k < i ==> expected[k] in cosigners
    {
      if expected[i] !in cosigners {
        return Err("provided cosigners do not match saved cosigners");
      }
    }
    if |expected| != |cosigners| {
      return Err("the number of provided cosigners does not match the number of saved cosigners");
    }
    if expectedThreshold != threshold {
      return Err("the threshold of provided cosigners does not match the threshold of saved cosigners");
    }
    return Ok(());
  }

  /** Removing one occurrence of an element. */
  function RemoveOne(s: seq<Address>, i: nat): (r: seq<Address>)
    requires i < |s|
    ensures |r| == |s| - 1
  {
    s[..i] + s[i + 1..]
  }

  lemma RemoveOneMultiset(s: seq<Address>, i: nat)
    requires i < |s|
    ensures multiset(RemoveOne(s, i)) == multiset(s) - multiset{s[i]}
    ensures forall a :: a in s && a != s[i] ==> a in RemoveOne(s, i)
  {
    assert s == s[..i] + [s[i]] + s[i + 1..];
    forall a | a in s && a != s[i] ensures a in RemoveOne(s, i) {
      var k :| 0 <= k < |s| && s[k] == a;
      assert RemoveOne(s, i)[if k < i then k else k - 1] == a;
    }
  }

  /** A list without duplicates contained in one of the same length is a permutation of it. */
  lemma {:induction false} Pigeonhole(a: seq<Address>, b: seq<Address>)
    requires NoDuplicates(a) && |a| == |b| && forall i :: 0 <= i < |a| ==> a[i] in b
    ensures multiset(a) == multiset(b)
    decreases |a|
  {
    if |a| > 0 {
      var n := |a| - 1;
      var k :| 0 <= k < |b| && b[k] == a[n];
      RemoveOneMultiset(b, k);
      forall i | 0 <= i < n ensures a[..n][i] in RemoveOne(b, k) {
        assert a[i] != a[n];
      }
      Pigeonhole(a[..n], RemoveOne(b, k));
      assert a == a[..n] + [a[n]];
      assert multiset(b) == multiset(RemoveOne(b, k)) + multiset{b[k]};
    } else {
      assert a == b;
    }
  }

  /** The wallet may sign for this instruction. */
  predicate Usable(w: WalletInfo, d: Data) {
    && w.keyType == XRP_TYPE && w.signingAlgo == XRP_SIGN_ALGO
    && Matching(d.cosigners, w.cosigners, d.cosignersThreshold, w.cosignersThreshold)
  }

  /** Loads every requested key or none. `isScalar` is the validation of ToECDSA. */
  method LoadPrivateKeys(live: map<KeyIdPair, WalletInfo>, walletId: Hash, keyIds: seq<Uint64>, d: Data,
                         isScalar: seq<Byte> -> bool)
    returns (r: Result<seq<seq<Byte>>>)
    ensures r.Ok? <==> forall i :: 0 <= i < |keyIds| ==>
      var id := KeyIdPair(walletId, keyIds[i]);
      id in live && Usable(live[id], d) && isScalar(live[id].privateKey)
    ensures r.Ok? ==>
      && |r.value| == |keyIds|
      && forall i :: 0 <= i < |keyIds| ==> r.value[i] == live[KeyIdPair(walletId, keyIds[i])].privateKey
  {
    var keys: seq<seq<Byte>> := [];
    for i := 0 to |keyIds|
      invariant |keys| == i
      invariant forall k :: 0 <= k < i ==>
        var id := KeyIdPair(walletId, keyIds[k]);
        id in live && Usable(live[id], d) && isScalar(live[id].privateKey) && keys[k] == live[id].privateKey
    {
      var id := KeyIdPair(walletId, keyIds[i]);
      if id !in live {
        return Err("wallet non-existent");
      }
      var key := live[id];
      if key.keyType != XRP_TYPE {
        return Err("key type does not allow the action");
      }
      if key.signingAlgo != XRP_SIGN_ALGO {
        return Err("key's signing algorithm does not allow the action");
      }
      var matching := CheckMatchingCosigners(d.cosigners, key.cosigners, d.cosignersThreshold, key.cosignersThreshold);
      if matching.Err? {
        return Err(matching.error);
      }
      if !isScalar(key.privateKey) {
        return Err("invalid private key");
      }
      keys := keys + [key.privateKey];
    }
    return Ok(keys);
  }

  /** Between lists without duplicates, matching is being a permutation under the same
      threshold. */
  lemma MatchingIff(expected: seq<Address>, cosigners: seq<Address>, expectedThreshold: Uint64, threshold: Uint64)
    requires NoDuplicates(expected)
    ensures Matching(expected, cosigners, expectedThreshold, threshold) <==>
      multiset(expected) == multiset(cosigners) && expectedThreshold == threshold
  {
    if Matching(expected, cosigners, expectedThreshold, threshold) {
      Pigeonhole(expected, cosigners);
    }
    if multiset(expected) == multiset(cosigners) {
      assert |expected| == |multiset(expected)| == |multiset(cosigners)| == |cosigners|;
      forall i | 0 <= i < |expected| ensures expected[i] in cosigners {
        assert expected[i] in multiset(cosigners);
      }
    }
  }

  /** If the cosigners of an accepted instruction match a list of members, they are these
      members up to order, and at least the members' threshold of them, as different
      people, have signed, as has more provider weight than the signing policy asks for. */
  lemma CosignersSigned(d: Data, signers: seq<Address>, p: SigningPolicy, members: seq<Address>, threshold: Uint64)
    requires PolicyOk(p) && Accepted(d, signers, p) && d.request.Regular?
    requires Matching(d.cosigners, members, d.cosignersThreshold, threshold)
    ensures multiset(d.cosigners) == multiset(members) && NoDuplicates(d.cosigners)
    ensures |Common(members, signers)| >= threshold
    ensures WeightOf(p, signers) > p.threshold > 0
  {
    MatchingIff(d.cosigners, members, d.cosignersThreshold, threshold);
    CountIsCardinality(d.cosigners, signers);
    assert Common(d.cosigners, signers) == Common(members, signers) by {
      forall a ensures a in d.cosigners <==> a in members {
        assert a in multiset(d.cosigners) <==> a in multiset(members);
      }
    }
  }

  /** So it is for the cosigners of a key that an accepted instruction may use. */
  lemma SigningAuthorised(d: Data, signers: seq<Address>, p: SigningPolicy, w: WalletInfo)
    requires PolicyOk(p) && Accepted(d, signers, p) && d.request.Regular? && Usable(w, d)
    ensures multiset(d.cosigners) == multiset(w.cosigners) && NoDuplicates(d.cosigners)
    ensures |Common(w.cosigners, signers)| >= w.cosignersThreshold
    ensures WeightOf(p, signers) > p.threshold > 0
  {
    CosignersSigned(d, signers, p, w.cosigners, w.cosignersThreshold);
  }
}
