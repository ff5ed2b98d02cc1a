/** Backup and restore together: exactly the messages that reach both
    thresholds give the wallet back. */
module EndToEnd {
  import opened Wrappers
  import opened Field
  import opened Shamir
  import opened Weights
  import opened Wallets
  import opened Backup
  import opened BackupCheck
  import opened Restore

  ghost function IssuedData(e: EncryptedShares): set<KeySplitData> {
    set i | 0 <= i < |e.splits| :: e.splits[i].plaintext.data
  }

  ghost function AllIssued(b: WalletBackup): set<KeySplitData> {
    IssuedData(b.admin) + IssuedData(b.provider)
  }

  /** No forgery arrived: whatever split names this backup and verifies, in whatever
      message, was issued by it. Its key signs nothing else under this id. */
  ghost predicate OnlyIssued(b: WalletBackup, messages: seq<Message>, crypto: Crypto) {
    forall i, j :: 0 <= i < |messages| && messages[i].Decrypted? && 0 <= j < |SplitsOf(messages[i].plaintext)| ==>
      var s := SplitsOf(messages[i].plaintext)[j];
      s.data.partialId.id == b.meta.id && crypto.verify(s.data, s.signature) ==> s.data in AllIssued(b)
  }

  /** The weight of the first n owners whose split was delivered. */
  ghost function PresentWeight(e: EncryptedShares, got: set<KeySplitData>, n: nat): nat
    requires n <= |e.splits| == |e.weights|
  {
    if n == 0 then 0
    else PresentWeight(e, got, n - 1) + if e.splits[n - 1].plaintext.data in got then e.weights[n - 1] else 0
  }

  // ---- blocks of shares ------------------------------------------------------------

  lemma BlockIndex(f: Field, c: seq<int>, weights: seq<Uint16>, i: nat, k: nat)
    requires f.modulus > 0 && Total(weights) < UINT64_LIMIT && i < |weights| && k < weights[i]
    ensures var shares := SharesOf(f, c, Total(weights));
            && Block(shares, weights, i)[k] in shares
            && Block(shares, weights, i)[k].x == Offset(weights, i) + k + 1 <= Offset(weights, i + 1)
  {
    OffsetMonotone(weights, i, i + 1);
    var shares, m := SharesOf(f, c, Total(weights)), Offset(weights, i) + k;
    assert Block(shares, weights, i)[k] == shares[m];
    assert shares[m].x == m + 1;
  }

  lemma BlocksDisjoint(f: Field, c: seq<int>, weights: seq<Uint16>, i: nat, k: nat, j: nat, l: nat)
    requires f.modulus > 0 && Total(weights) < UINT64_LIMIT && i < |weights| && j < |weights| && i != j
    requires k < weights[i] && l < weights[j]
    ensures var shares := SharesOf(f, c, Total(weights));
            Block(shares, weights, i)[k].x != Block(shares, weights, j)[l].x
  {
    BlockIndex(f, c, weights, i, k);
    BlockIndex(f, c, weights, j, l);
    OffsetsApart(weights, i, k, j, l);
  }

  lemma OffsetsApart(weights: seq<Uint16>, i: nat, k: nat, j: nat, l: nat)
    requires i < |weights| && j < |weights| && i != j && k < weights[i] && l < weights[j]
    ensures Offset(weights, i) + k != Offset(weights, j) + l
  {
    if i < j {
      OffsetMonotone(weights, i + 1, j);
    } else {
      OffsetMonotone(weights, j + 1, i);
    }
  }

  /** Two different splits of one part have no share index in common. */
  lemma SplitsDisjoint(e: EncryptedShares, f: Field, c: seq<int>, pid: PartialId, crypto: Crypto, sk: seq<Byte>,
                       d: KeySplitData, k: nat, d': KeySplitData, l: nat)
    requires Issued(e, f, c, pid, crypto, sk)
    requires d in IssuedData(e) && d' in IssuedData(e) && d != d' && k < |d.shares| && l < |d'.shares|
    ensures d.shares[k].x != d'.shares[l].x
  {
    var i :| 0 <= i < |e.splits| && e.splits[i].plaintext.data == d;
    var j :| 0 <= j < |e.splits| && e.splits[j].plaintext.data == d';
    BlocksDisjoint(f, c, e.weights, i, k, j, l);
  }

  lemma SplitShares(e: EncryptedShares, f: Field, c: seq<int>, pid: PartialId, crypto: Crypto, sk: seq<Byte>,
                    d: KeySplitData)
    requires Issued(e, f, c, pid, crypto, sk) && d in IssuedData(e)
    ensures DistinctIndices(d.shares)
    ensures forall k :: 0 <= k < |d.shares| ==> d.shares[k] in SharesOf(f, c, Total(e.weights))
    ensures d.partialId == pid && d.owner in e.owners
  {
    var i :| 0 <= i < |e.splits| && e.splits[i].plaintext.data == d;
    forall k | 0 <= k < |d.shares|
      ensures d.shares[k] in SharesOf(f, c, Total(e.weights)) && d.shares[k].x == Offset(e.weights, i) + k + 1
    {
      BlockIndex(f, c, e.weights, i, k);
    }
  }

  // ---- the shares of a set of splits ---------------------------------------------------

  lemma PrefixFacts(splits: seq<KeySplit>)
    requires |splits| > 0 && NoRepeats(splits)
    ensures var rest, last := splits[..|splits| - 1], splits[|splits| - 1];
            && NoRepeats(rest) && last.data !in DataOf(rest)
            && DataOf(splits) == DataOf(rest) + {last.data}
  {
  }

  lemma {:induction false} FlattenMember(splits: seq<KeySplit>, k: nat) returns (d: KeySplitData, l: nat)
    requires k < |Flatten(splits)|
    ensures d in DataOf(splits) && l < |d.shares| && d.shares[l] == Flatten(splits)[k]
    decreases |splits|
  {
    var n := |splits| - 1;
    var before := Flatten(splits[..n]);
    if k < |before| {
      d, l := FlattenMember(splits[..n], k);
      var i :| 0 <= i < n && splits[..n][i].data == d;
      assert splits[i].data == d;
    } else {
      d, l := splits[n].data, k - |before|;
    }
  }

  /** However they are ordered, different splits contribute different shares of
      the one polynomial. */
  lemma {:induction false} FlattenDistinct(e: EncryptedShares, f: Field, c: seq<int>, pid: PartialId, crypto: Crypto,
                                           sk: seq<Byte>, splits: seq<KeySplit>)
    requires Issued(e, f, c, pid, crypto, sk) && NoRepeats(splits) && DataOf(splits) <= IssuedData(e)
    ensures DistinctIndices(Flatten(splits))
    ensures forall k :: 0 <= k < |Flatten(splits)| ==> Flatten(splits)[k] in SharesOf(f, c, Total(e.weights))
    decreases |splits|
  {
    if |splits| > 0 {
      var rest, last := splits[..|splits| - 1], splits[|splits| - 1];
      PrefixFacts(splits);
      FlattenDistinct(e, f, c, pid, crypto, sk, rest);
      SplitShares(e, f, c, pid, crypto, sk, last.data);
      var a, b := Flatten(rest), last.data.shares;
      forall k, l | 0 <= k < |a| && 0 <= l < |b| ensures a[k].x != b[l].x {
        var d, m := FlattenMember(rest, k);
        SplitsDisjoint(e, f, c, pid, crypto, sk, d, m, last.data, l);
      }
      DistinctAppend(a, b);
    }
  }

  lemma DistinctAppend(a: seq<Share>, b: seq<Share>)
    requires DistinctIndices(a) && DistinctIndices(b)
    requires forall k, l :: 0 <= k < |a| && 0 <= l < |b| ==> a[k].x != b[l].x
    ensures DistinctIndices(a + b)
  {
  }

  /** Adding a new split adds the weight of its owner, once. */
  lemma {:induction false} PresentWeightAdd(e: EncryptedShares, f: Field, c: seq<int>, pid: PartialId, crypto: Crypto,
                                            sk: seq<Byte>, got: set<KeySplitData>, d: KeySplitData, i: nat, n: nat)
    requires Issued(e, f, c, pid, crypto, sk) && n <= |e.splits|
    requires i < |e.splits| && e.splits[i].plaintext.data == d && d !in got
    ensures PresentWeight(e, got + {d}, n) == PresentWeight(e, got, n) + if i < n then |d.shares| else 0
  {
    if n > 0 {
      var k := n - 1;
      PresentWeightAdd(e, f, c, pid, crypto, sk, got, d, i, k);
      if k != i && e.splits[k].plaintext.data == d && e.weights[k] > 0 {
        BlocksDisjoint(f, c, e.weights, i, 0, k, 0);
        assert false;
      }
    }
  }

  lemma {:induction false} PresentWeightEmpty(e: EncryptedShares, n: nat)
    requires n <= |e.splits| == |e.weights|
    ensures PresentWeight(e, {}, n) == 0
  {
    if n > 0 {
      PresentWeightEmpty(e, n - 1);
    }
  }

  /** The number of collected shares is the delivered weight. */
  lemma {:induction false} FlattenCounts(e: EncryptedShares, f: Field, c: seq<int>, pid: PartialId, crypto: Crypto,
                                         sk: seq<Byte>, splits: seq<KeySplit>)
    requires Issued(e, f, c, pid, crypto, sk) && NoRepeats(splits) && DataOf(splits) <= IssuedData(e)
    ensures |Flatten(splits)| == PresentWeight(e, DataOf(splits), |e.splits|)
    decreases |splits|
  {
    if |splits| == 0 {
      PresentWeightEmpty(e, |e.splits|);
      assert DataOf(splits) == {};
    } else {
      var rest, last := splits[..|splits| - 1], splits[|splits| - 1];
      PrefixFacts(splits);
      FlattenCounts(e, f, c, pid, crypto, sk, rest);
      assert last.data in IssuedData(e);
      var i :| 0 <= i < |e.splits| && e.splits[i].plaintext.data == last.data;
      PresentWeightAdd(e, f, c, pid, crypto, sk, DataOf(rest), last.data, i, |e.splits|);
    }
  }

  /** With any threshold from the issued one on, a part is recovered exactly from that
      threshold of delivered weight on. */
  lemma PartRecovered(e: EncryptedShares, f: Field, c: seq<int>, pid: PartialId, crypto: Crypto, sk: seq<Byte>,
                      splits: seq<KeySplit>, threshold: nat)
    requires Valid(f) && Issued(e, f, c, pid, crypto, sk) && NoRepeats(splits) && DataOf(splits) <= IssuedData(e)
    requires threshold >= e.threshold
    ensures JoinedPart(f, splits, threshold) ==
      if PresentWeight(e, DataOf(splits), |e.splits|) >= threshold then Some(Bytes(f, c[0])) else None
  {
    FlattenCounts(e, f, c, pid, crypto, sk, splits);
    FlattenDistinct(e, f, c, pid, crypto, sk, splits);
    if |Flatten(splits)| >= threshold {
      var picked := Flatten(splits)[..threshold];
      assert forall i :: 0 <= i < |picked| ==> picked[i] == Flatten(splits)[i];
      ShamirRoundTrip(f, c, Total(e.weights), picked);
    }
  }

  // ---- telling the parts apart ---------------------------------------------------------

  ghost function PartOf(got: set<KeySplitData>, isAdmin: bool): set<KeySplitData> {
    set d | d in got && d.partialId.isAdmin == isAdmin
  }

  lemma {:induction false} OfPartFacts(splits: seq<KeySplit>, isAdmin: bool)
    requires NoRepeats(splits)
    ensures NoRepeats(OfPart(splits, isAdmin))
    ensures DataOf(OfPart(splits, isAdmin)) == PartOf(DataOf(splits), isAdmin)
    decreases |splits|
  {
    if |splits| == 0 {
      assert DataOf(splits) == {};
    } else {
      var rest, last := splits[..|splits| - 1], splits[|splits| - 1];
      PrefixFacts(splits);
      OfPartFacts(rest, isAdmin);
      DataOfAppend(OfPart(rest, isAdmin), last);
    }
  }

  /** A delivered set only counts for a part through that part's own splits. */
  lemma {:induction false} PresentWeightOfPart(e: EncryptedShares, f: Field, c: seq<int>, pid: PartialId, crypto: Crypto,
                                               sk: seq<Byte>, got: set<KeySplitData>, n: nat)
    requires Issued(e, f, c, pid, crypto, sk) && n <= |e.splits|
    ensures PresentWeight(e, PartOf(got, pid.isAdmin), n) == PresentWeight(e, got, n)
  {
    if n > 0 {
      PresentWeightOfPart(e, f, c, pid, crypto, sk, got, n - 1);
    }
  }

  /** The metadata names the owner of every admin split that was delivered. */
  ghost predicate OwnersKnown(got: set<KeySplitData>, meta: MetaData) {
    forall d :: d in got && d.partialId.isAdmin ==> d.owner in meta.admins
  }

  /** One part of what was collected: it passes the checks unless it is empty or has an
      unknown admin, and joins exactly from the threshold on. */
  lemma CollectedPart(e: EncryptedShares, f: Field, c: seq<int>, pid: PartialId, crypto: Crypto, sk: seq<Byte>,
                      meta: MetaData, all: seq<KeySplit>, threshold: nat)
    requires Valid(f) && Issued(e, f, c, pid, crypto, sk) && NoRepeats(all)
    requires PartOf(DataOf(all), pid.isAdmin) <= IssuedData(e)
    requires pid.id == meta.id && threshold >= e.threshold
    ensures var part := OfPart(all, pid.isAdmin);
            if PresentWeight(e, DataOf(all), |e.splits|) >= threshold
            then (SharesChecked(part, meta) <==> pid.isAdmin ==> OwnersKnown(DataOf(all), meta))
                 && JoinedPart(f, part, threshold) == Some(Bytes(f, c[0]))
            else JoinedPart(f, part, threshold).None?
  {
    var part := OfPart(all, pid.isAdmin);
    OfPartFacts(all, pid.isAdmin);
    PresentWeightOfPart(e, f, c, pid, crypto, sk, DataOf(all), |e.splits|);
    PartRecovered(e, f, c, pid, crypto, sk, part, threshold);
    if PresentWeight(e, DataOf(all), |e.splits|) >= threshold {
      PresentWeightEmpty(e, |e.splits|);
      assert |part| == 0 ==> DataOf(part) == {};
      CheckedIff(e, f, c, pid, crypto, sk, meta, all);
    }
  }

  lemma CheckedIff(e: EncryptedShares, f: Field, c: seq<int>, pid: PartialId, crypto: Crypto, sk: seq<Byte>,
                   meta: MetaData, all: seq<KeySplit>)
    requires Issued(e, f, c, pid, crypto, sk) && NoRepeats(all) && pid.id == meta.id
    requires PartOf(DataOf(all), pid.isAdmin) <= IssuedData(e) && |OfPart(all, pid.isAdmin)| > 0
    ensures SharesChecked(OfPart(all, pid.isAdmin), meta) <==> (pid.isAdmin ==> OwnersKnown(DataOf(all), meta))
  {
    var part := OfPart(all, pid.isAdmin);
    OfPartFacts(all, pid.isAdmin);
    forall i | 0 <= i < |part| ensures part[i].data.partialId == pid && part[i].data in DataOf(all) {
      assert part[i].data in DataOf(part);
      SplitShares(e, f, c, pid, crypto, sk, part[i].data);
    }
    if pid.isAdmin && SharesChecked(part, meta) {
      forall d | d in DataOf(all) && d.partialId.isAdmin ensures d.owner in meta.admins {
        assert d in DataOf(part);
        var i :| 0 <= i < |part| && part[i].data == d;
      }
    }
  }

  lemma CollectedIsIssued(b: WalletBackup, w: WalletInfo, f: Field, crypto: Crypto, ac: seq<int>, pc: seq<int>,
                          all: seq<KeySplit>)
    requires BackupFrom(b, w, f, crypto, ac, pc) && DataOf(all) <= AllIssued(b)
    ensures PartOf(DataOf(all), true) <= IssuedData(b.admin)
    ensures PartOf(DataOf(all), false) <= IssuedData(b.provider)
  {
  }

  /** What the messages delivered of a backup reaches both thresholds of the metadata. */
  ghost predicate Reaches(b: WalletBackup, got: set<KeySplitData>, meta: MetaData)
    requires |b.admin.splits| == |b.admin.weights| && |b.provider.splits| == |b.provider.weights|
  {
    && PresentWeight(b.admin, got, |b.admin.splits|) >= meta.adminsThreshold
    && PresentWeight(b.provider, got, |b.provider.splits|) >= meta.providersThreshold
  }

  /** It reaches those of the backup itself. */
  ghost predicate Sufficient(b: WalletBackup, got: set<KeySplitData>)
    requires |b.admin.splits| == |b.admin.weights| && |b.provider.splits| == |b.provider.weights|
  {
    Reaches(b, got, b.meta)
  }

  /** The metadata names this backup and its field, and no threshold below the issued ones. */
  predicate NotBelow(meta: MetaData, b: WalletBackup) {
    && meta.id == b.meta.id && meta.fieldId == b.meta.fieldId
    && meta.adminsThreshold >= b.meta.adminsThreshold && meta.providersThreshold >= b.meta.providersThreshold
  }

  /** Exactly what recovery makes of a backup's splits under metadata that comes from
      elsewhere: the key with the members and thresholds of that metadata, if the splits
      reach its thresholds, it names the owners of the admin splits and its admin keys
      parse, and nothing otherwise. */
  lemma RecoveryUnderMetadata(b: WalletBackup, w: WalletInfo, fs: Fields, crypto: Crypto, meta: MetaData, all: seq<KeySplit>)
    requires FieldsOk(fs) && IsBackupOf(b, w, fs, crypto) && NotBelow(meta, b)
    requires NoRepeats(all) && DataOf(all) <= AllIssued(b)
    ensures |b.admin.splits| == |b.admin.weights| && |b.provider.splits| == |b.provider.weights|
    ensures Recovered(all, meta, fs, crypto) ==
      if Reaches(b, DataOf(all), meta) && OwnersKnown(DataOf(all), meta) && AllParse(meta.admins, crypto)
      then Some(WalletFrom(meta, w.privateKey)) else None
  {
    var f := fs.secp256k1Order;
    var ac, pc :| BackupFrom(b, w, f, crypto, ac, pc);
    CollectedIsIssued(b, w, f, crypto, ac, pc, all);
    CollectedPart(b.admin, f, ac, PartialId(b.meta.id, true), crypto, w.privateKey, meta, all, meta.adminsThreshold);
    CollectedPart(b.provider, f, pc, PartialId(b.meta.id, false), crypto, w.privateKey, meta, all, meta.providersThreshold);
  }

  /** The owners of all issued admin splits are the wallet's admins. */
  lemma OwnersAreAdmins(b: WalletBackup, w: WalletInfo, fs: Fields, crypto: Crypto, meta: MetaData, got: set<KeySplitData>)
    requires FieldsOk(fs) && IsBackupOf(b, w, fs, crypto) && got <= AllIssued(b)
    requires forall a :: a in w.admins ==> a in meta.admins
    ensures OwnersKnown(got, meta)
  {
    var ac, pc :| BackupFrom(b, w, fs.secp256k1Order, crypto, ac, pc);
    forall d | d in got && d.partialId.isAdmin ensures d.owner in meta.admins {
      if d in IssuedData(b.provider) {
        SplitShares(b.provider, fs.secp256k1Order, pc, PartialId(b.meta.id, false), crypto, w.privateKey, d);
      } else {
        SplitShares(b.admin, fs.secp256k1Order, ac, PartialId(b.meta.id, true), crypto, w.privateKey, d);
      }
    }
  }

  /** Under the backup's own metadata recovery returns the backed-up wallet when both
      thresholds are reached (and its admin keys parse) and fails otherwise. */
  lemma RecoveryIff(b: WalletBackup, w: WalletInfo, fs: Fields, crypto: Crypto, all: seq<KeySplit>)
    requires FieldsOk(fs) && IsBackupOf(b, w, fs, crypto) && NoRepeats(all) && DataOf(all) <= AllIssued(b)
    ensures |b.admin.splits| == |b.admin.weights| && |b.provider.splits| == |b.provider.weights|
    ensures Recovered(all, b.meta, fs, crypto) ==
      if Sufficient(b, DataOf(all)) && AllParse(w.admins, crypto) then Some(AsRestored(w)) else None
  {
    var ac, pc :| BackupFrom(b, w, fs.secp256k1Order, crypto, ac, pc);
    RecoveryUnderMetadata(b, w, fs, crypto, b.meta, all);
    OwnersAreAdmins(b, w, fs, crypto, b.meta, DataOf(all));
  }

  lemma {:induction false} DeliveredIsIssued(b: WalletBackup, messages: seq<Message>, crypto: Crypto, n: nat)
    requires n <= |messages| && OnlyIssued(b, messages, crypto)
    ensures Delivered(messages, n, b.meta.id, crypto) <= AllIssued(b)
  {
    if n > 0 {
      DeliveredIsIssued(b, messages, crypto, n - 1);
    }
  }

  /** Different private keys have different public keys; only 32-byte scalars have any. */
  ghost predicate KeysTellApart(crypto: Crypto) {
    forall k, k' :: crypto.pubKey(k).Some? && crypto.pubKey(k) == crypto.pubKey(k') ==> k == k'
  }

  /** The metadata repeats the wallet's members and thresholds. */
  predicate SameMembers(meta: MetaData, w: WalletInfo) {
    && meta.admins == w.admins && meta.adminsThreshold == w.adminsThreshold
    && meta.cosigners == w.cosigners && meta.cosignersThreshold == w.cosignersThreshold
  }

  /** The metadata comes with the instruction and only its id is compared. Whatever else
      it says, whatever is recovered under the id of a backup is the key backed up with
      the members and thresholds the metadata names; it is the wallet backed up exactly
      when these are the wallet's own. */
  lemma RecoveredKeyIsOriginal(b: WalletBackup, w: WalletInfo, fs: Fields, crypto: Crypto, meta: MetaData, all: seq<KeySplit>)
    requires FieldsOk(fs) && IsBackupOf(b, w, fs, crypto) && meta.id == b.meta.id
    requires KeysTellApart(crypto)
    requires Recovered(all, meta, fs, crypto).Some?
    ensures Recovered(all, meta, fs, crypto).value == WalletFrom(meta, w.privateKey)
    ensures Recovered(all, meta, fs, crypto).value == AsRestored(w) <==> SameMembers(meta, w)
  {
    var ac, pc :| BackupFrom(b, w, fs.secp256k1Order, crypto, ac, pc);
  }

  /** The whole restore: collect the splits from the messages, recover the wallet. */
  method RestoreFromMessages(messages: seq<Message>, b: WalletBackup, fs: Fields, crypto: Crypto, ghost w: WalletInfo)
    returns (r: Result<WalletInfo>)
    requires FieldsOk(fs) && IsBackupOf(b, w, fs, crypto) && OnlyIssued(b, messages, crypto)
    requires |b.admin.splits| == |b.admin.weights| && |b.provider.splits| == |b.provider.weights|
    ensures r.Ok? <==> Sufficient(b, Delivered(messages, |messages|, b.meta.id, crypto)) && AllParse(w.admins, crypto)
    ensures r.Ok? ==> r.value == AsRestored(w)
  {
    var all, failed := ProcessKeySplitMessages(messages, b.meta.id, crypto);
    DeliveredIsIssued(b, messages, crypto, |messages|);
    RecoveryIff(b, w, fs, crypto, all);
    r := RecoverWallet(all, b.meta, fs, crypto);
  }

  // ---- reading the threshold in terms of people -----------------------------------------

  /** The indices below n whose split was delivered. */
  ghost function Present(e: EncryptedShares, got: set<KeySplitData>, n: nat): set<nat>
    requires n <= |e.splits|
  {
    set i: nat | i < n && e.splits[i].plaintext.data in got
  }

  /** With weight 1 each, as for admins, the delivered weight counts heads. */
  lemma {:induction false} WeightOneCountsHeads(e: EncryptedShares, got: set<KeySplitData>, n: nat)
    requires n <= |e.splits| == |e.weights|
    requires forall i :: 0 <= i < |e.weights| ==> e.weights[i] == 1
    ensures PresentWeight(e, got, n) == |Present(e, got, n)|
  {
    if n > 0 {
      WeightOneCountsHeads(e, got, n - 1);
      if e.splits[n - 1].plaintext.data in got {
        assert Present(e, got, n) == Present(e, got, n - 1) + {n - 1};
      } else {
        assert Present(e, got, n) == Present(e, got, n - 1);
      }
    } else {
      assert Present(e, got, 0) == {};
    }
  }

  /** Every owner's issued split, sent to the restoring node by anyone, counts. */
  lemma {:induction false} EveryAcceptedMessageCounts(messages: seq<Message>, n: nat, id: BackupId, crypto: Crypto, i: nat, j: nat)
    requires i < n <= |messages| && Acceptable(messages[i], id, crypto) && j < |SplitsOf(messages[i].plaintext)|
    ensures SplitsOf(messages[i].plaintext)[j].data in Delivered(messages, n, id, crypto)
  {
    if i < n - 1 {
      EveryAcceptedMessageCounts(messages, n - 1, id, crypto, i, j);
    }
  }

  // ---- from the owners' side ------------------------------------------------------------

  /** Some acceptable message, alone or beside another split, carries what the i-th owner
      was issued. An owner of two splits sends both in one message. */
  ghost predicate Sends(messages: seq<Message>, id: BackupId, crypto: Crypto, e: EncryptedShares, i: nat)
    requires i < |e.splits|
  {
    exists k :: 0 <= k < |messages| && Acceptable(messages[k], id, crypto)
                && e.splits[i].plaintext.data in DataOf(SplitsOf(messages[k].plaintext))
  }

  ghost predicate IsIssuedSplit(b: WalletBackup, s: KeySplit) {
    || (exists i :: 0 <= i < |b.admin.splits| && b.admin.splits[i].plaintext == s)
    || (exists i :: 0 <= i < |b.provider.splits| && b.provider.splits[i].plaintext == s)
  }

  /** One or two splits that the backup issued make an acceptable message. */
  lemma IssuedSplitsAcceptable(b: WalletBackup, w: WalletInfo, fs: Fields, crypto: Crypto, m: Message)
    requires FieldsOk(fs) && IsBackupOf(b, w, fs, crypto) && SignaturesVerify(crypto)
    requires m.Decrypted? && !m.plaintext.Malformed? && 1 <= |SplitsOf(m.plaintext)| <= MAX_SPLITS_PER_MESSAGE
    requires forall j :: 0 <= j < |SplitsOf(m.plaintext)| ==> IsIssuedSplit(b, SplitsOf(m.plaintext)[j])
    ensures Acceptable(m, b.meta.id, crypto)
  {
    var ac, pc :| BackupFrom(b, w, fs.secp256k1Order, crypto, ac, pc);
    forall j | 0 <= j < |SplitsOf(m.plaintext)| ensures Authentic(SplitsOf(m.plaintext)[j], b.meta.id, crypto) {
      assert IsIssuedSplit(b, SplitsOf(m.plaintext)[j]);
    }
  }

  /** The weight of the chosen owners among the first n. */
  ghost function ChosenWeight(weights: seq<Uint16>, chosen: set<nat>, n: nat): nat
    requires n <= |weights|
  {
    if n == 0 then 0 else ChosenWeight(weights, chosen, n - 1) + if n - 1 in chosen then weights[n - 1] else 0
  }

  lemma SentSplitDelivered(messages: seq<Message>, id: BackupId, crypto: Crypto, e: EncryptedShares, i: nat)
    requires i < |e.splits| && Sends(messages, id, crypto, e, i)
    ensures e.splits[i].plaintext.data in Delivered(messages, |messages|, id, crypto)
  {
    var k :| 0 <= k < |messages| && Acceptable(messages[k], id, crypto)
             && e.splits[i].plaintext.data in DataOf(SplitsOf(messages[k].plaintext));
    var splits := SplitsOf(messages[k].plaintext);
    var j :| 0 <= j < |splits| && splits[j].data == e.splits[i].plaintext.data;
    EveryAcceptedMessageCounts(messages, |messages|, id, crypto, k, j);
  }

  /** The weight of owners whose splits have arrived is present. */
  lemma {:induction false} ChosenPresent(e: EncryptedShares, got: set<KeySplitData>, chosen: set<nat>, n: nat)
    requires n <= |e.splits| == |e.weights|
    requires forall i: nat :: i in chosen && i < n ==> e.splits[i].plaintext.data in got
    ensures ChosenWeight(e.weights, chosen, n) <= PresentWeight(e, got, n)
  {
    if n > 0 {
      ChosenPresent(e, got, chosen, n - 1);
    }
  }

  /** All chosen owners' weight is delivered once each has sent its split. */
  lemma ChosenDelivered(messages: seq<Message>, id: BackupId, crypto: Crypto, e: EncryptedShares, chosen: set<nat>)
    requires |e.splits| == |e.weights|
    requires forall i: nat :: i in chosen ==> i < |e.splits| && Sends(messages, id, crypto, e, i)
    ensures ChosenWeight(e.weights, chosen, |e.splits|)
         <= PresentWeight(e, Delivered(messages, |messages|, id, crypto), |e.splits|)
  {
    var got := Delivered(messages, |messages|, id, crypto);
    forall i: nat | i in chosen ensures e.splits[i].plaintext.data in got {
      SentSplitDelivered(messages, id, crypto, e, i);
    }
    ChosenPresent(e, got, chosen, |e.splits|);
  }

  lemma {:induction false} ChosenHeads(weights: seq<Uint16>, chosen: set<nat>, n: nat)
    requires n <= |weights| && forall i :: 0 <= i < |weights| ==> weights[i] == 1
    requires forall i :: i in chosen ==> i < n
    ensures ChosenWeight(weights, chosen, n) == |chosen|
  {
    if n == 0 {
      assert chosen == {};
    } else {
      var rest := chosen - {n - 1};
      ChosenHeads(weights, rest, n - 1);
      ChosenSame(weights, chosen, rest, n - 1);
    }
  }

  lemma {:induction false} ChosenSame(weights: seq<Uint16>, a: set<nat>, b: set<nat>, n: nat)
    requires n <= |weights| && forall i: nat :: i < n ==> (i in a <==> i in b)
    ensures ChosenWeight(weights, a, n) == ChosenWeight(weights, b, n)
  {
    if n > 0 {
      ChosenSame(weights, a, b, n - 1);
    }
  }

  /** These admins and providers send what they were issued, and reach both thresholds. */
  ghost predicate EnoughSend(b: WalletBackup, messages: seq<Message>, crypto: Crypto, admins: set<nat>, providers: set<nat>) {
    && |b.admin.splits| == |b.admin.weights| && |b.provider.splits| == |b.provider.weights|
    && (forall i: nat :: i in admins ==> i < |b.admin.splits| && Sends(messages, b.meta.id, crypto, b.admin, i))
    && (forall i: nat :: i in providers ==> i < |b.provider.splits| && Sends(messages, b.meta.id, crypto, b.provider, i))
    && |admins| >= b.meta.adminsThreshold
    && ChosenWeight(b.provider.weights, providers, |b.provider.weights|) >= b.meta.providersThreshold
  }

  /** Any threshold-many admins together with any providers of threshold weight
      suffice, whatever else is among the messages. */
  lemma OwnersSuffice(b: WalletBackup, w: WalletInfo, fs: Fields, crypto: Crypto, messages: seq<Message>,
                      admins: set<nat>, providers: set<nat>)
    requires FieldsOk(fs) && IsBackupOf(b, w, fs, crypto) && EnoughSend(b, messages, crypto, admins, providers)
    ensures Sufficient(b, Delivered(messages, |messages|, b.meta.id, crypto))
  {
    var ac, pc :| BackupFrom(b, w, fs.secp256k1Order, crypto, ac, pc);
    ChosenDelivered(messages, b.meta.id, crypto, b.admin, admins);
    ChosenHeads(b.admin.weights, admins, |b.admin.splits|);
    ChosenDelivered(messages, b.meta.id, crypto, b.provider, providers);
  }

  // ---- from the wallet back to the wallet -----------------------------------------------

  /** Every owner of one part sends what it was issued. */
  function SplitsAlone(e: EncryptedShares): (messages: seq<Message>)
    ensures |messages| == |e.splits|
  {
    seq(|e.splits|, i requires 0 <= i < |e.splits| => Decrypted(Single(e.splits[i].plaintext)))
  }

  /** Every owner sends what it was issued, and nobody anything else. */
  function OwnSplits(b: WalletBackup): seq<Message> {
    SplitsAlone(b.admin) + SplitsAlone(b.provider)
  }

  /** Among the owners' own splits there is no forgery. */
  lemma OwnSplitsOnlyIssued(b: WalletBackup, crypto: Crypto)
    ensures OnlyIssued(b, OwnSplits(b), crypto)
  {
    var messages := OwnSplits(b);
    forall i | 0 <= i < |messages| ensures DataOf(SplitsOf(messages[i].plaintext)) <= AllIssued(b) {
      if i < |b.admin.splits| {
        assert b.admin.splits[i].plaintext.data in IssuedData(b.admin);
      } else {
        assert b.provider.splits[i - |b.admin.splits|].plaintext.data in IssuedData(b.provider);
      }
    }
  }

  /** The numbers below n. */
  ghost function Below(n: nat): (r: set<nat>)
    ensures |r| == n && forall i: nat :: i in r <==> i < n
  {
    if n == 0 then {} else Below(n - 1) + {n - 1}
  }

  lemma {:induction false} AllChosen(weights: seq<Uint16>, n: nat)
    requires n <= |weights|
    ensures ChosenWeight(weights, Below(|weights|), n) == Offset(weights, n)
  {
    if n > 0 {
      AllChosen(weights, n - 1);
    }
  }

  /** All owners together are always enough. */
  lemma EveryoneIsEnough(b: WalletBackup, w: WalletInfo, fs: Fields, crypto: Crypto)
    requires FieldsOk(fs) && IsBackupOf(b, w, fs, crypto) && SignaturesVerify(crypto)
    ensures EnoughSend(b, OwnSplits(b), crypto, Below(|b.admin.splits|), Below(|b.provider.splits|))
  {
    OwnSplitsSent(b, w, fs, crypto);
    AllReachThresholds(b, w, fs, crypto);
  }

  lemma AllReachThresholds(b: WalletBackup, w: WalletInfo, fs: Fields, crypto: Crypto)
    requires FieldsOk(fs) && IsBackupOf(b, w, fs, crypto)
    ensures |b.admin.splits| == |b.admin.weights| >= b.meta.adminsThreshold
    ensures |b.provider.splits| == |b.provider.weights|
    ensures ChosenWeight(b.provider.weights, Below(|b.provider.splits|), |b.provider.weights|) >= b.meta.providersThreshold
  {
    var ac, pc :| BackupFrom(b, w, fs.secp256k1Order, crypto, ac, pc);
    assert b.admin.weights == Ones(|b.admin.splits|);
    TotalOnes(|b.admin.splits|);
    AllWeigh(b.provider.weights);
  }

  lemma OwnSplitsSent(b: WalletBackup, w: WalletInfo, fs: Fields, crypto: Crypto)
    requires FieldsOk(fs) && IsBackupOf(b, w, fs, crypto) && SignaturesVerify(crypto)
    ensures AllSend(OwnSplits(b), b.meta.id, crypto, b.admin) && AllSend(OwnSplits(b), b.meta.id, crypto, b.provider)
  {
    OwnSplitsAcceptable(b, w, fs, crypto);
    SentAlone([], SplitsAlone(b.provider), b.meta.id, crypto, b.admin);
    assert [] + SplitsAlone(b.admin) + SplitsAlone(b.provider) == OwnSplits(b);
    SentAlone(SplitsAlone(b.admin), [], b.meta.id, crypto, b.provider);
    assert SplitsAlone(b.admin) + SplitsAlone(b.provider) + [] == OwnSplits(b);
  }

  lemma OwnSplitsAcceptable(b: WalletBackup, w: WalletInfo, fs: Fields, crypto: Crypto)
    requires FieldsOk(fs) && IsBackupOf(b, w, fs, crypto) && SignaturesVerify(crypto)
    ensures AllAcceptable(SplitsAlone(b.admin), b.meta.id, crypto) && AllAcceptable(SplitsAlone(b.provider), b.meta.id, crypto)
  {
    PartAcceptable(b, w, fs, crypto, b.admin);
    PartAcceptable(b, w, fs, crypto, b.provider);
  }

  lemma AllWeigh(weights: seq<Uint16>)
    ensures ChosenWeight(weights, Below(|weights|), |weights|) == Total(weights)
  {
    AllChosen(weights, |weights|);
    OffsetIsTotal(weights, |weights|);
    assert weights[..|weights|] == weights;
  }

  ghost predicate AllAcceptable(messages: seq<Message>, id: BackupId, crypto: Crypto) {
    forall k :: 0 <= k < |messages| ==> Acceptable(messages[k], id, crypto)
  }

  /** Whatever goes before and after. */
  lemma SentAlone(before: seq<Message>, after: seq<Message>, id: BackupId, crypto: Crypto, e: EncryptedShares)
    requires AllAcceptable(SplitsAlone(e), id, crypto)
    ensures AllSend(before + SplitsAlone(e) + after, id, crypto, e)
  {
    var messages := before + SplitsAlone(e) + after;
    forall i: nat | i < |e.splits| ensures Sends(messages, id, crypto, e, i) {
      var k := |before| + i;
      assert messages[k] == SplitsAlone(e)[i];
      assert SplitsOf(messages[k].plaintext)[0].data in DataOf(SplitsOf(messages[k].plaintext));
    }
  }

  ghost predicate AllSend(messages: seq<Message>, id: BackupId, crypto: Crypto, e: EncryptedShares) {
    forall i: nat :: i < |e.splits| ==> Sends(messages, id, crypto, e, i)
  }

  lemma PartAcceptable(b: WalletBackup, w: WalletInfo, fs: Fields, crypto: Crypto, e: EncryptedShares)
    requires FieldsOk(fs) && IsBackupOf(b, w, fs, crypto) && SignaturesVerify(crypto) && (e == b.admin || e == b.provider)
    ensures AllAcceptable(SplitsAlone(e), b.meta.id, crypto)
  {
    forall k | 0 <= k < |e.splits| ensures Acceptable(SplitsAlone(e)[k], b.meta.id, crypto) {
      assert IsIssuedSplit(b, e.splits[k].plaintext);
      IssuedSplitsAcceptable(b, w, fs, crypto, SplitsAlone(e)[k]);
    }
  }

  /** Back a wallet up, let the owners send their splits among anything else that is not
      a forgery, and restore: the backup is returned, and if enough owners send, so is
      the wallet, with its key. `send` stands for the owners and the network. */
  method BackupThenRestore(w: WalletInfo, providers: seq<PublicKey>, weights: seq<Uint16>, rewardEpochId: nat,
                           teeId: Address, normalization: Uint16, dpThreshold: Uint64,
                           fs: Fields, crypto: Crypto, nonce: Hash, splitRng: Rng, adminRng: Rng, providerRng: Rng,
                           send: WalletBackup -> seq<Message>)
    returns (b: Result<WalletBackup>, r: Result<WalletInfo>)
    requires FieldsOk(fs) && Backupable(w, providers, weights, normalization, dpThreshold, fs.secp256k1Order, crypto)
    requires |w.admins| < UINT64_LIMIT && AllParse(w.admins, crypto)
    requires RngOver(splitRng, fs.secp256k1Order) && RngOver(adminRng, fs.secp256k1Order)
    requires RngOver(providerRng, fs.secp256k1Order)
    requires DrawsAll(splitRng) && DrawsAll(adminRng) && DrawsAll(providerRng)
    requires SignsAll(crypto, w.privateKey)
    requires forall b :: IsBackupOf(b, w, fs, crypto) ==> OnlyIssued(b, send(b), crypto)
    ensures b.Ok? && IsBackupOf(b.value, w, fs, crypto) && SignedByOwner(b.value, w, crypto)
    ensures BackupSignaturesVerify(crypto) ==> Passes(b.value, crypto, true)
    ensures |b.value.admin.splits| == |b.value.admin.weights| && |b.value.provider.splits| == |b.value.provider.weights|
    ensures r.Ok? <==> Sufficient(b.value, Delivered(send(b.value), |send(b.value)|, b.value.meta.id, crypto))
    ensures forall admins, providers :: EnoughSend(b.value, send(b.value), crypto, admins, providers) ==> r == Ok(AsRestored(w))
    ensures r.Ok? ==> r.value == AsRestored(w)
  {
    b := BackupWallet(w, providers, weights, rewardEpochId, teeId, normalization, dpThreshold, fs, crypto, Some(nonce),
                      splitRng, adminRng, providerRng);
    if BackupSignaturesVerify(crypto) {
      ReturnedBackupPasses(b.value, w, fs, crypto);
    }
    var messages := send(b.value);
    ghost var ac, pc :| BackupFrom(b.value, w, fs.secp256k1Order, crypto, ac, pc);
    r := RestoreFromMessages(messages, b.value, fs, crypto, w);
    forall admins, providers | EnoughSend(b.value, messages, crypto, admins, providers) ensures r == Ok(AsRestored(w)) {
      OwnersSuffice(b.value, w, fs, crypto, messages, admins, providers);
    }
  }
}
