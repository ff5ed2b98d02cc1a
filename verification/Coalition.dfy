/** Privacy of a whole backup: what the owners who reach one threshold, but miss the
    other by one, can tell of the private key from all they were issued. */
module Coalition {
  import opened Field
  import opened Shamir
  import opened Privacy
  import opened Weights
  import opened Backup
  import opened Restore
  import opened EndToEnd

  /** The shares of issued splits lie on the polynomial they were issued from, at different
      indices, none of them zero. */
  lemma IssuedAreSeen(e: EncryptedShares, f: Field, c: seq<int>, pid: PartialId, crypto: Crypto, sk: seq<Byte>,
                      splits: seq<KeySplit>)
    requires Issued(e, f, c, pid, crypto, sk) && NoRepeats(splits) && DataOf(splits) <= IssuedData(e)
    ensures Seen(f, c, Flatten(splits)) && Proper(Flatten(splits))
  {
    FlattenDistinct(e, f, c, pid, crypto, sk, splits);
    var view := Flatten(splits);
    forall i | 0 <= i < |view| ensures view[i] == ShareAt(f, c, view[i].x) && view[i].x > 0 {
      assert view[i] in SharesOf(f, c, Total(e.weights));
    }
  }

  /** Admins and providers pool their splits. With the threshold, or everything, of one part
      and one share less than the threshold of the other, every candidate key is explained
      by exactly one outcome of all draws of the backup: nothing is learnt of the key. */
  lemma CoalitionLearnsNothing(b: WalletBackup, f: Field, actual: nat, drawn: KeyDraws, crypto: Crypto, sk: seq<Byte>,
                               admins: seq<KeySplit>, providers: seq<KeySplit>, candidate: nat)
    returns (d: KeyDraws)
    requires Valid(f) && candidate < f.modulus && b.admin.threshold > 0 && b.provider.threshold > 0
    requires DrawsOk(drawn, f.modulus, b.admin.threshold, b.provider.threshold)
    requires Issued(b.admin, f, AdminPolynomial(actual, drawn, f.modulus), PartialId(b.meta.id, true), crypto, sk)
    requires Issued(b.provider, f, ProviderPolynomial(actual, drawn, f.modulus), PartialId(b.meta.id, false), crypto, sk)
    requires NoRepeats(admins) && DataOf(admins) <= IssuedData(b.admin)
    requires NoRepeats(providers) && DataOf(providers) <= IssuedData(b.provider)
    requires var a, p := PresentWeight(b.admin, DataOf(admins), |b.admin.splits|),
                         PresentWeight(b.provider, DataOf(providers), |b.provider.splits|);
             || (a >= b.admin.threshold && p == b.provider.threshold - 1)
             || (p >= b.provider.threshold && a == b.admin.threshold - 1)
    ensures DrawsOk(d, f.modulus, b.admin.threshold, b.provider.threshold)
    ensures Sees(f, candidate, d, Flatten(admins), Flatten(providers))
    ensures forall e | DrawsOk(e, f.modulus, b.admin.threshold, b.provider.threshold)
                       && Sees(f, candidate, e, Flatten(admins), Flatten(providers)) :: e == d
  {
    var ac, pc := AdminPolynomial(actual, drawn, f.modulus), ProviderPolynomial(actual, drawn, f.modulus);
    IssuedAreSeen(b.admin, f, ac, PartialId(b.meta.id, true), crypto, sk, admins);
    IssuedAreSeen(b.provider, f, pc, PartialId(b.meta.id, false), crypto, sk, providers);
    FlattenCounts(b.admin, f, ac, PartialId(b.meta.id, true), crypto, sk, admins);
    FlattenCounts(b.provider, f, pc, PartialId(b.meta.id, false), crypto, sk, providers);
    d := BackupPrivacy(f, actual, drawn, b.admin.threshold, b.provider.threshold, Flatten(admins), Flatten(providers), candidate);
  }
}
