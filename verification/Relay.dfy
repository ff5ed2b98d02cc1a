/** Ordering provider signatures for the Relay contract:
    checkResponseSignatures in internal/processors/instructions/fdcutils/fdcutils.go. */
module Relay {
  import opened Wrappers
  import opened Weights
  import opened Wallets
  import opened Voters

  type Signature = nat

  datatype IndexedSignature = IndexedSignature(index: nat, signature: Signature)

  ghost predicate StrictlyIncreasing(s: seq<IndexedSignature>) {
    forall i, j :: 0 <= i < j < |s| ==> s[i].index < s[j].index
  }

  lemma IncreasingAt(s: seq<IndexedSignature>, i: nat, j: nat)
    requires StrictlyIncreasing(s) && i <= j < |s|
    ensures i == j || s[i].index < s[j].index
  {
  }

  ghost predicate Ordered(s: seq<IndexedSignature>) {
    forall i, j :: 0 <= i < j < |s| ==> s[i].index <= s[j].index
  }

  /** The signature of every provider among the first n signers, in their order. */
  function ProviderSignatures(sigs: seq<Signature>, signers: seq<Address>, voters: seq<Address>, n: nat): seq<IndexedSignature>
    requires n <= |sigs| == |signers|
  {
    if n == 0 then [] else
      var rest := ProviderSignatures(sigs, signers, voters, n - 1);
      var index := VoterIndex(voters, signers[n - 1]);
      if index == -1 then rest else rest + [IndexedSignature(index, sigs[n - 1])]
  }

  function CosignerSignatures(sigs: seq<Signature>, signers: seq<Address>, cosigners: seq<Address>, n: nat): seq<Signature>
    requires n <= |sigs| == |signers|
  {
    if n == 0 then [] else
      var rest := CosignerSignatures(sigs, signers, cosigners, n - 1);
      if signers[n - 1] in cosigners then rest + [sigs[n - 1]] else rest
  }

  /** Where slices.SortFunc puts one more element. */
  function Insert(s: seq<IndexedSignature>, x: IndexedSignature): seq<IndexedSignature> {
    if |s| == 0 || s[|s| - 1].index <= x.index then s + [x]
    else Insert(s[..|s| - 1], x) + [s[|s| - 1]]
  }

  lemma {:induction false} InsertOrders(s: seq<IndexedSignature>, x: IndexedSignature)
    requires Ordered(s)
    ensures Ordered(Insert(s, x))
    ensures forall k :: 0 <= k < |Insert(s, x)| ==>
      Insert(s, x)[k].index <= x.index || (|s| > 0 && Insert(s, x)[k].index <= s[|s| - 1].index)
    decreases |s|
  {
    if |s| > 0 && s[|s| - 1].index > x.index {
      InsertOrders(s[..|s| - 1], x);
    }
  }

  lemma {:induction false} InsertAdds(s: seq<IndexedSignature>, x: IndexedSignature)
    ensures multiset(Insert(s, x)) == multiset(s) + multiset{x}
    decreases |s|
  {
    if |s| > 0 && s[|s| - 1].index > x.index {
      InsertAdds(s[..|s| - 1], x);
      assert s == s[..|s| - 1] + [s[|s| - 1]];
    }
  }

  /** The sort, by its contract: ordered and a permutation. */
  method SortByIndex(s: seq<IndexedSignature>) returns (r: seq<IndexedSignature>)
    ensures Ordered(r) && multiset(r) == multiset(s)
  {
    r := [];
    for i := 0 to |s|
      invariant Ordered(r) && multiset(r) == multiset(s[..i])
    {
      InsertOrders(r, s[i]);
      InsertAdds(r, s[i]);
      r := Insert(r, s[i]);
      assert s[..i + 1] == s[..i] + [s[i]];
    }
    assert s[..|s|] == s;
  }

  ghost predicate Indices(s: seq<IndexedSignature>, voters: seq<Address>, signers: seq<Address>) {
    && (forall k :: 0 <= k < |s| ==> s[k].index < |voters| && voters[s[k].index] in signers)
    && (forall i :: 0 <= i < |voters| && voters[i] in signers ==> HasIndex(s, i))
  }

  ghost predicate HasIndex(s: seq<IndexedSignature>, i: nat) {
    exists k :: 0 <= k < |s| && s[k].index == i
  }

  ghost predicate DistinctIndices(s: seq<IndexedSignature>) {
    forall i, j :: 0 <= i < j < |s| ==> s[i].index != s[j].index
  }

  /** Distinct signers give every provider exactly one entry. */
  lemma {:induction false} ProviderIndices(sigs: seq<Signature>, signers: seq<Address>, voters: seq<Address>, n: nat)
    requires n <= |sigs| == |signers| && NoDuplicates(signers) && NoDuplicates(voters)
    ensures DistinctIndices(ProviderSignatures(sigs, signers, voters, n))
    ensures Indices(ProviderSignatures(sigs, signers, voters, n), voters, signers[..n])
  {
    if n > 0 {
      ProviderIndices(sigs, signers, voters, n - 1);
      var rest, all := ProviderSignatures(sigs, signers, voters, n - 1), ProviderSignatures(sigs, signers, voters, n);
      var a := signers[n - 1];
      assert signers[..n] == signers[..n - 1] + [a];
      assert a !in signers[..n - 1];
      NextSigner(rest, all, voters, signers[..n - 1], a);
    }
  }

  /** One more signer, not seen before: its entry is new, and all others stay. */
  lemma NextSigner(rest: seq<IndexedSignature>, all: seq<IndexedSignature>, voters: seq<Address>,
                   before: seq<Address>, a: Address)
    requires NoDuplicates(voters) && a !in before && DistinctIndices(rest) && Indices(rest, voters, before)
    requires var i := VoterIndex(voters, a);
             if i == -1 then all == rest else |all| == |rest| + 1 && all[..|rest|] == rest && all[|rest|].index == i
    ensures DistinctIndices(all) && Indices(all, voters, before + [a])
  {
    forall k | 0 <= k < |rest| ensures all[k] == rest[k] {
      assert a !in voters || all[..|rest|][k] == all[k];
    }
    forall i | 0 <= i < |voters| && voters[i] in before + [a] ensures HasIndex(all, i) {
      if voters[i] == a {
        assert all[|rest|].index == i;
      } else {
        assert HasIndex(rest, i);
        var k :| 0 <= k < |rest| && rest[k].index == i;
        assert all[k].index == i;
      }
    }
  }

  /** A permutation keeps the entries, so it keeps what holds of them. */
  lemma PermutationKeeps(s: seq<IndexedSignature>, r: seq<IndexedSignature>, voters: seq<Address>, signers: seq<Address>)
    requires multiset(r) == multiset(s) && DistinctIndices(s) && Indices(s, voters, signers)
    ensures DistinctIndices(r) && Indices(r, voters, signers)
  {
    forall k | 0 <= k < |r| ensures r[k] in s {
      assert r[k] in multiset(r);
    }
    forall i | 0 <= i < |voters| && voters[i] in signers ensures HasIndex(r, i) {
      assert HasIndex(s, i);
      var k :| 0 <= k < |s| && s[k].index == i;
      assert s[k] in multiset(r);
    }
    forall i, j | 0 <= i < j < |r| ensures r[i].index != r[j].index {
      if r[i].index == r[j].index {
        SameEntry(s, r[i], r[j]);
        TwoOccurrences(r, i, j);
        OneOccurrence(s, r[i]);
        assert false;
      }
    }
  }

  lemma SameEntry(s: seq<IndexedSignature>, x: IndexedSignature, y: IndexedSignature)
    requires DistinctIndices(s) && x in s && y in s && x.index == y.index
    ensures x == y
  {
  }

  lemma TwoOccurrences(s: seq<IndexedSignature>, i: nat, j: nat)
    requires i < j < |s| && s[i] == s[j]
    ensures multiset(s)[s[i]] >= 2
  {
    assert s == s[..j] + s[j..];
    assert s[i] in multiset(s[..j]) by { assert s[..j][i] == s[i]; }
    assert s[j] in multiset(s[j..]) by { assert s[j..][0] == s[j]; }
  }

  lemma {:induction false} OneOccurrence(s: seq<IndexedSignature>, x: IndexedSignature)
    requires DistinctIndices(s)
    ensures multiset(s)[x] <= 1
    decreases |s|
  {
    if |s| > 0 {
      var last := |s| - 1;
      assert s == s[..last] + [s[last]];
      OneOccurrence(s[..last], x);
      if s[last] == x {
        assert x !in s[..last];
        assert x !in multiset(s[..last]);
      }
    }
  }

  /** The voter weight the Relay adds up along the signatures. */
  function WeightAlong(s: seq<IndexedSignature>, weights: seq<Uint16>): nat
    requires forall k :: 0 <= k < |s| ==> s[k].index < |weights|
  {
    if |s| == 0 then 0 else WeightAlong(s[..|s| - 1], weights) + weights[s[|s| - 1].index]
  }

  /** If the last of the first n voters signed, it is the last entry, and the entries
      before it name the signers among the voters before it. */
  lemma LastVoterSigned(s: seq<IndexedSignature>, voters: seq<Address>, signers: seq<Address>)
    requires |voters| > 0 && StrictlyIncreasing(s) && Indices(s, voters, signers) && voters[|voters| - 1] in signers
    ensures |s| > 0 && s[|s| - 1].index == |voters| - 1
    ensures StrictlyIncreasing(s[..|s| - 1]) && Indices(s[..|s| - 1], voters[..|voters| - 1], signers)
  {
  }

  /** If it did not sign, all entries name voters before it. */
  lemma LastVoterAbsent(s: seq<IndexedSignature>, voters: seq<Address>, signers: seq<Address>)
    requires |voters| > 0 && Indices(s, voters, signers) && voters[|voters| - 1] !in signers
    ensures Indices(s, voters[..|voters| - 1], signers)
  {
  }

  /** Along strictly increasing indices that name exactly the signing voters below n,
      the weights add up to their weight. */
  lemma {:induction false} WeightAlongIncreasing(s: seq<IndexedSignature>, voters: seq<Address>, weights: seq<Uint16>,
                                                 signers: seq<Address>, n: nat)
    requires n <= |voters| == |weights| && StrictlyIncreasing(s) && Indices(s, voters[..n], signers)
    ensures WeightAlong(s, weights) == SumIn(voters, weights, signers, n)
    decreases n
  {
    if n == 0 {
      assert |s| == 0;
    } else {
      assert voters[..n][..n - 1] == voters[..n - 1];
      if voters[n - 1] in signers {
        LastVoterSigned(s, voters[..n], signers);
        WeightAlongIncreasing(s[..|s| - 1], voters, weights, signers, n - 1);
      } else {
        LastVoterAbsent(s, voters[..n], signers);
        WeightAlongIncreasing(s, voters, weights, signers, n - 1);
      }
    }
  }

  /** The provider signatures come out in strictly increasing voter index, one per
      signing provider, and weigh what the threshold check counted. */
  method CheckResponseSignatures(verify: (Signature, Address) -> bool, sigs: seq<Signature>, signers: seq<Address>,
                                 p: SigningPolicy, cosigners: seq<Address>)
    returns (r: Result<(seq<IndexedSignature>, seq<Signature>)>)
    requires PolicyOk(p) && NoDuplicates(signers)
    ensures r.Ok? <==> |sigs| == |signers| && forall i :: 0 <= i < |sigs| ==> verify(sigs[i], signers[i])
    ensures r.Ok? ==>
      && StrictlyIncreasing(r.value.0)
      && multiset(r.value.0) == multiset(ProviderSignatures(sigs, signers, p.voters, |sigs|))
      && Indices(r.value.0, p.voters, signers)
      && WeightAlong(r.value.0, p.weights) == WeightOf(p, signers)
      && r.value.1 == CosignerSignatures(sigs, signers, cosigners, |sigs|)
    ensures r.Ok? ==>
      && FiledRight(r.value.0, sigs, signers, p.voters, |sigs|)
      && (forall e :: e in r.value.0 ==> e.index < |p.voters| && verify(e.signature, p.voters[e.index]))
      && CosignersInOrder(r.value.1, sigs, signers, cosigners, |sigs|)
  {
    if |sigs| != |signers| {
      return Err("signature count does not match signer count");
    }
    var dpSigs: seq<IndexedSignature> := [];
    var cosSigs: seq<Signature> := [];
    for i := 0 to |sigs|
      invariant forall k :: 0 <= k < i ==> verify(sigs[k], signers[k])
      invariant dpSigs == ProviderSignatures(sigs, signers, p.voters, i)
      invariant cosSigs == CosignerSignatures(sigs, signers, cosigners, i)
    {
      if !verify(sigs[i], signers[i]) {
        return Err("signature check fail");
      }
      var dpIndex := VoterIndex(p.voters, signers[i]);
      if dpIndex != -1 {
        dpSigs := dpSigs + [IndexedSignature(dpIndex, sigs[i])];
      }
      if signers[i] in cosigners {
        cosSigs := cosSigs + [sigs[i]];
      }
    }
    var sorted := SortByIndex(dpSigs);
    SortedFacts(sigs, signers, p, sorted);
    SortedFiledRight(sigs, signers, p.voters, sorted);
    EntriesVerify(verify, sorted, sigs, signers, p.voters);
    CosignersFiled(sigs, signers, cosigners, |sigs|);
    return Ok((sorted, cosSigs));
  }

  // ---- whose signature is where ---------------------------------------------------------------

  /** The entry is the signature of one of the signers under that signer's voter index. */
  ghost predicate FiledFor(e: IndexedSignature, sigs: seq<Signature>, signers: seq<Address>, voters: seq<Address>, i: nat)
    requires i < |sigs| == |signers|
  {
    e.signature == sigs[i] && e.index < |voters| && voters[e.index] == signers[i]
  }

  ghost predicate SomebodyFiled(e: IndexedSignature, sigs: seq<Signature>, signers: seq<Address>, voters: seq<Address>, n: nat)
    requires n <= |sigs| == |signers|
  {
    exists i :: 0 <= i < n && FiledFor(e, sigs, signers, voters, i)
  }

  ghost predicate HasEntry(out: seq<IndexedSignature>, sigs: seq<Signature>, signers: seq<Address>, voters: seq<Address>, i: nat)
    requires i < |sigs| == |signers|
  {
    exists e :: e in out && FiledFor(e, sigs, signers, voters, i)
  }

  /** Every entry is one of the first n signers', and each of them who is a voter has one. */
  ghost predicate FiledRight(out: seq<IndexedSignature>, sigs: seq<Signature>, signers: seq<Address>, voters: seq<Address>, n: nat) {
    && n <= |sigs| == |signers|
    && (forall e :: e in out ==> SomebodyFiled(e, sigs, signers, voters, n))
    && (forall i {:trigger HasEntry(out, sigs, signers, voters, i)} ::
          0 <= i < n && signers[i] in voters ==> HasEntry(out, sigs, signers, voters, i))
  }

  lemma {:induction false} FiledUpTo(sigs: seq<Signature>, signers: seq<Address>, voters: seq<Address>, n: nat)
    requires n <= |sigs| == |signers|
    ensures FiledRight(ProviderSignatures(sigs, signers, voters, n), sigs, signers, voters, n)
  {
    if n > 0 {
      FiledUpTo(sigs, signers, voters, n - 1);
      FiledNext(ProviderSignatures(sigs, signers, voters, n - 1), ProviderSignatures(sigs, signers, voters, n),
                sigs, signers, voters, n - 1);
    }
  }

  /** One more signer: nothing new, or one entry under its own index. */
  lemma FiledNext(rest: seq<IndexedSignature>, all: seq<IndexedSignature>, sigs: seq<Signature>, signers: seq<Address>,
                  voters: seq<Address>, n: nat)
    requires n < |sigs| == |signers| && FiledRight(rest, sigs, signers, voters, n)
    requires if signers[n] !in voters then all == rest
             else exists last :: FiledFor(last, sigs, signers, voters, n) && all == rest + [last]
    ensures FiledRight(all, sigs, signers, voters, n + 1)
  {
    forall e | e in all ensures SomebodyFiled(e, sigs, signers, voters, n + 1) {
      if e in rest {
        assert SomebodyFiled(e, sigs, signers, voters, n);
      }
    }
    forall i | 0 <= i < n + 1 && signers[i] in voters ensures HasEntry(all, sigs, signers, voters, i) {
      if i < n {
        assert HasEntry(rest, sigs, signers, voters, i);
      } else {
        var last :| FiledFor(last, sigs, signers, voters, n) && all == rest + [last];
        assert last in all;
      }
    }
  }

  lemma SortedFiledRight(sigs: seq<Signature>, signers: seq<Address>, voters: seq<Address>, sorted: seq<IndexedSignature>)
    requires |sigs| == |signers| && multiset(sorted) == multiset(ProviderSignatures(sigs, signers, voters, |sigs|))
    ensures FiledRight(sorted, sigs, signers, voters, |sigs|)
  {
    FiledUpTo(sigs, signers, voters, |sigs|);
    var all := ProviderSignatures(sigs, signers, voters, |sigs|);
    forall e ensures e in sorted <==> e in all {
      assert e in multiset(sorted) <==> e in multiset(all);
    }
    forall i | 0 <= i < |sigs| && signers[i] in voters ensures HasEntry(sorted, sigs, signers, voters, i) {
      assert HasEntry(all, sigs, signers, voters, i);
    }
  }

  /** The voter to whom an entry belongs has made its signature. */
  lemma EntriesVerify(verify: (Signature, Address) -> bool, out: seq<IndexedSignature>, sigs: seq<Signature>,
                      signers: seq<Address>, voters: seq<Address>)
    requires FiledRight(out, sigs, signers, voters, |sigs|) && forall i :: 0 <= i < |sigs| ==> verify(sigs[i], signers[i])
    ensures forall e :: e in out ==> e.index < |voters| && verify(e.signature, voters[e.index])
  {
    forall e | e in out ensures e.index < |voters| && verify(e.signature, voters[e.index]) {
      assert SomebodyFiled(e, sigs, signers, voters, |sigs|);
    }
  }

  /** How many of the first i signers are cosigners. */
  ghost function CosignersBefore(signers: seq<Address>, cosigners: seq<Address>, i: nat): nat
    requires i <= |signers|
  {
    if i == 0 then 0 else CosignersBefore(signers, cosigners, i - 1) + if signers[i - 1] in cosigners then 1 else 0
  }

  /** The output holds the signatures of the first n signers who are cosigners, each at
      the place its signer has among them, and nothing else. */
  ghost predicate CosignersInOrder(out: seq<Signature>, sigs: seq<Signature>, signers: seq<Address>,
                                   cosigners: seq<Address>, n: nat)
  {
    && n <= |sigs| == |signers| && |out| == CosignersBefore(signers, cosigners, n)
    && forall i :: 0 <= i < n && signers[i] in cosigners ==> SignatureAt(out, CosignersBefore(signers, cosigners, i), sigs[i])
  }

  predicate SignatureAt(out: seq<Signature>, k: nat, sig: Signature) {
    k < |out| && out[k] == sig
  }

  lemma {:induction false} CosignersFiled(sigs: seq<Signature>, signers: seq<Address>, cosigners: seq<Address>, n: nat)
    requires n <= |sigs| == |signers|
    ensures CosignersInOrder(CosignerSignatures(sigs, signers, cosigners, n), sigs, signers, cosigners, n)
  {
    if n > 0 {
      CosignersFiled(sigs, signers, cosigners, n - 1);
    }
  }

  lemma SortedFacts(sigs: seq<Signature>, signers: seq<Address>, p: SigningPolicy, sorted: seq<IndexedSignature>)
    requires PolicyOk(p) && NoDuplicates(signers) && |sigs| == |signers| && Ordered(sorted)
    requires multiset(sorted) == multiset(ProviderSignatures(sigs, signers, p.voters, |sigs|))
    ensures StrictlyIncreasing(sorted) && Indices(sorted, p.voters, signers)
    ensures WeightAlong(sorted, p.weights) == WeightOf(p, signers)
  {
    assert signers[..|sigs|] == signers;
    ProviderIndices(sigs, signers, p.voters, |sigs|);
    PermutationKeeps(ProviderSignatures(sigs, signers, p.voters, |sigs|), sorted, p.voters, signers);
    assert p.voters[..|p.voters|] == p.voters;
    WeightAlongIncreasing(sorted, p.voters, p.weights, signers, |p.voters|);
  }

  /** There is only one such order, whatever sort produces it. */
  lemma {:induction false} OrderUnique(a: seq<IndexedSignature>, b: seq<IndexedSignature>)
    requires StrictlyIncreasing(a) && StrictlyIncreasing(b) && multiset(a) == multiset(b)
    ensures a == b
    decreases |a|
  {
    SameLength(a, b);
    if |a| > 0 {
      LastEntryEqual(a, b);
      FrontsAgree(a, b);
      OrderUnique(a[..|a| - 1], b[..|b| - 1]);
    }
  }

  lemma SameLength(a: seq<IndexedSignature>, b: seq<IndexedSignature>)
    requires multiset(a) == multiset(b)
    ensures |a| == |b|
  {
    assert |a| == |multiset(a)| == |multiset(b)| == |b|;
  }

  lemma FrontsAgree(a: seq<IndexedSignature>, b: seq<IndexedSignature>)
    requires multiset(a) == multiset(b) && |a| == |b| > 0 && a[|a| - 1] == b[|b| - 1]
    ensures multiset(a[..|a| - 1]) == multiset(b[..|b| - 1])
    ensures a[..|a| - 1] == b[..|b| - 1] ==> a == b
  {
    DropLast(a);
    DropLast(b);
    assert a == a[..|a| - 1] + [a[|a| - 1]] && b == b[..|b| - 1] + [b[|b| - 1]];
  }

  lemma DropLast(a: seq<IndexedSignature>)
    requires |a| > 0
    ensures multiset(a[..|a| - 1]) == multiset(a) - multiset{a[|a| - 1]}
  {
    assert a == a[..|a| - 1] + [a[|a| - 1]];
  }

  lemma LastEntryEqual(a: seq<IndexedSignature>, b: seq<IndexedSignature>)
    requires StrictlyIncreasing(a) && StrictlyIncreasing(b) && multiset(a) == multiset(b) && |a| == |b| > 0
    ensures a[|a| - 1] == b[|b| - 1]
  {
    var n := |a| - 1;
    assert a[n] in multiset(a) && b[n] in multiset(b);
    var i :| 0 <= i < |b| && b[i] == a[n];
    var j :| 0 <= j < |a| && a[j] == b[n];
    IncreasingAt(b, i, n);
    IncreasingAt(a, j, n);
  }
}
