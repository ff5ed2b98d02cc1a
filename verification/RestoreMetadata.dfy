/** What the metadata of a restore instruction can and cannot change. The instruction
    brings it along, and keyRestoreDataCheck in
    internal/processors/instructions/walletutils/walletutil.go compares its id with the
    request and its admins with the instruction's own cosigners, and with nothing else. */
module RestoreMetadata {
  import opened Wrappers
  import opened Field
  import opened Sets
  import opened Wallets
  import opened Voters
  import opened Quorum
  import opened Backup
  import opened Restore
  import opened EndToEnd
  import opened ProviderRestore

  /** Of an instruction with this metadata, with any epoch and message, the fixed part. */
  ghost function DataFor(meta: MetaData, crypto: Crypto, epoch: nat, message: nat): Data
    requires AllParse(meta.admins, crypto)
  {
    Data(epoch, Regular, message, AddressesOf(meta.admins, crypto), meta.adminsThreshold)
  }

  /** Metadata with any members passes the data check of an instruction that names its
      admins as cosigners. */
  lemma AnyMembersPass(tee: Address, req: RestoreRequest, meta: MetaData, crypto: Crypto, epoch: nat, message: nat)
    requires req.machine == Some(tee) && SupportedAlgo(req.backupId.signingAlgo) && req.nonce < UINT64_LIMIT
    requires |req.backupId.publicKey| == PUBLIC_KEY_SIZE && req.backupId.rewardEpochId <= epoch + 1
    requires meta.id == req.backupId && MemberCountsOk(|meta.admins|, |meta.cosigners|) && CosignersOk(meta)
    requires AllParse(meta.admins, crypto) && NoDuplicates(AddressesOf(meta.admins, crypto))
    ensures RestoreDataOk(tee, DataFor(meta, crypto, epoch, message), req.(meta := Some(meta)), crypto)
  {
  }

  // ---- the restored wallet --------------------------------------------------------------------

  /** Splits that restore the wallet under the backup's own metadata. */
  ghost predicate Restores(b: WalletBackup, w: WalletInfo, fs: Fields, crypto: Crypto, all: seq<KeySplit>) {
    && FieldsOk(fs) && IsBackupOf(b, w, fs, crypto) && NoRepeats(all) && DataOf(all) <= AllIssued(b)
    && |b.admin.splits| == |b.admin.weights| && |b.provider.splits| == |b.provider.weights|
    && Sufficient(b, DataOf(all)) && AllParse(w.admins, crypto)
  }

  /** Changed cosigners are restored as they are. */
  lemma ChangedCosigners(b: WalletBackup, w: WalletInfo, fs: Fields, crypto: Crypto, all: seq<KeySplit>,
                         cosigners: seq<Address>, threshold: Uint64)
    requires Restores(b, w, fs, crypto, all)
    ensures Recovered(all, b.meta.(cosigners := cosigners, cosignersThreshold := threshold), fs, crypto)
         == Some(AsRestored(w).(cosigners := cosigners, cosignersThreshold := threshold))
  {
    var meta := b.meta.(cosigners := cosigners, cosignersThreshold := threshold);
    var ac, pc :| BackupFrom(b, w, fs.secp256k1Order, crypto, ac, pc);
    RecoveryUnderMetadata(b, w, fs, crypto, meta, all);
    OwnersAreAdmins(b, w, fs, crypto, meta, DataOf(all));
  }

  /** So are added admins. */
  lemma AddedAdmins(b: WalletBackup, w: WalletInfo, fs: Fields, crypto: Crypto, all: seq<KeySplit>, extra: seq<PublicKey>)
    requires Restores(b, w, fs, crypto, all) && AllParse(extra, crypto)
    ensures Recovered(all, b.meta.(admins := w.admins + extra), fs, crypto)
         == Some(AsRestored(w).(admins := w.admins + extra))
  {
    var meta := b.meta.(admins := w.admins + extra);
    var ac, pc :| BackupFrom(b, w, fs.secp256k1Order, crypto, ac, pc);
    RecoveryUnderMetadata(b, w, fs, crypto, meta, all);
    OwnersAreAdmins(b, w, fs, crypto, meta, DataOf(all));
  }

  /** So is a raised admin threshold, if as many admins have sent their splits; otherwise
      nothing is restored. */
  lemma RaisedThreshold(b: WalletBackup, w: WalletInfo, fs: Fields, crypto: Crypto, all: seq<KeySplit>, threshold: Uint64)
    requires Restores(b, w, fs, crypto, all) && threshold >= w.adminsThreshold
    ensures Recovered(all, b.meta.(adminsThreshold := threshold), fs, crypto) ==
      if PresentWeight(b.admin, DataOf(all), |b.admin.splits|) >= threshold
      then Some(AsRestored(w).(adminsThreshold := threshold)) else None
  {
    var meta := b.meta.(adminsThreshold := threshold);
    var ac, pc :| BackupFrom(b, w, fs.secp256k1Order, crypto, ac, pc);
    RecoveryUnderMetadata(b, w, fs, crypto, meta, all);
    OwnersAreAdmins(b, w, fs, crypto, meta, DataOf(all));
  }

  /** Exactly which metadata gives back the wallet that was backed up: among metadata of
      the backup's id and field with thresholds not below the issued ones, the one that
      repeats the wallet's members and thresholds and whose provider threshold is reached. */
  lemma RestoredAsBackedUpIff(b: WalletBackup, w: WalletInfo, fs: Fields, crypto: Crypto, all: seq<KeySplit>, meta: MetaData)
    requires Restores(b, w, fs, crypto, all) && NotBelow(meta, b)
    ensures Recovered(all, meta, fs, crypto) == Some(AsRestored(w)) <==>
      && SameMembers(meta, w)
      && PresentWeight(b.provider, DataOf(all), |b.provider.splits|) >= meta.providersThreshold
  {
    var ac, pc :| BackupFrom(b, w, fs.secp256k1Order, crypto, ac, pc);
    RecoveryUnderMetadata(b, w, fs, crypto, meta, all);
    if SameMembers(meta, w) {
      OwnersAreAdmins(b, w, fs, crypto, meta, DataOf(all));
    }
  }

  // ---- the admins who signed --------------------------------------------------------------------

  /** Whatever passes under this metadata, n of `own` have signed it. */
  ghost predicate Guaranteed(meta: MetaData, crypto: Crypto, own: set<Address>, n: nat) {
    forall d, signers, p :: PassesRestore(d, signers, p, meta, crypto) ==> OwnSigned(own, signers, n)
  }

  /** As many admins as the threshold asks for, with as few of `own` as possible. */
  lemma FewestOwn(admins: set<Address>, own: set<Address>, threshold: nat) returns (picked: set<Address>)
    requires threshold <= |admins|
    ensures picked <= admins && |picked| == threshold
    ensures |picked * own| == if threshold <= |admins - own| then 0 else threshold - |admins - own|
  {
    Parted(admins, own);
    if threshold <= |admins - own| {
      picked := SubsetOfSize(admins - own, threshold);
      assert picked * own == {};
    } else {
      var inside := SubsetOfSize(admins * own, threshold - |admins - own|);
      picked := (admins - own) + inside;
      assert picked * own == inside;
    }
  }

  /** It passes with just these admins and one provider who is none of `own`. */
  lemma PassesWith(meta: MetaData, crypto: Crypto, own: set<Address>, picked: set<Address>, epoch: nat, message: nat)
    returns (signers: seq<Address>, p: SigningPolicy)
    requires AllParse(meta.admins, crypto) && NoDuplicates(AddressesOf(meta.admins, crypto))
    requires picked <= Elements(AddressesOf(meta.admins, crypto)) && |picked| == meta.adminsThreshold
    ensures PassesRestore(DataFor(meta, crypto, epoch, message), signers, p, meta, crypto)
    ensures own * Elements(signers) == picked * own && NoDuplicates(signers)
  {
    var admins := AddressesOf(meta.admins, crypto);
    var provider := Outside(Elements(admins) + own);
    var chosen := Enumerate(picked);
    signers, p := chosen + [provider], SigningPolicy(0, 1, [provider], [2], 0);
    AppendNew(chosen, picked, provider, Elements(admins) + own);
    assert provider !in own;
    assert forall a :: a in signers <==> a in picked + {provider};
    EnoughCosigners(admins, signers, picked);
    OneProvider(provider, signers);
  }

  lemma EnoughCosigners(admins: seq<Address>, signers: seq<Address>, picked: set<Address>)
    requires NoDuplicates(admins) && forall a :: a in picked ==> a in admins && a in signers
    ensures CosignersIn(admins, signers) >= |picked|
  {
    SubsetSize(picked, Common(admins, signers));
    CountIsCardinality(admins, signers);
  }

  /** One more address than the chosen ones, above all of a larger set. */
  lemma AppendNew(chosen: seq<Address>, picked: set<Address>, provider: Address, all: set<Address>)
    requires NoDuplicates(chosen) && (forall a :: a in chosen <==> a in picked) && picked <= all
    requires forall a :: a in all ==> a < provider
    ensures NoDuplicates(chosen + [provider]) && Elements(chosen + [provider]) == picked + {provider}
  {
    forall i | 0 <= i < |chosen| ensures chosen[i] != provider {
      assert chosen[i] in picked;
    }
  }

  lemma OneProvider(provider: Address, signers: seq<Address>)
    requires provider in signers
    ensures var p := SigningPolicy(0, 1, [provider], [2], 0); PolicyOk(p) && WeightOf(p, signers) == 2
  {
    var p := SigningPolicy(0, 1, [provider], [2], 0);
    assert p.weights[..0] == [];
    assert SumIn(p.voters, p.weights, signers, 0) == 0;
  }

  /** Exactly when n of `own`, say the threshold of the backup's own admins, must have signed
      a restore that passes: when the metadata cannot reach its own threshold without them.
      Its admins, its threshold and `own` are all it takes to tell. */
  lemma GuaranteedIff(meta: MetaData, crypto: Crypto, own: set<Address>, n: nat)
    requires AllParse(meta.admins, crypto) && NoDuplicates(AddressesOf(meta.admins, crypto))
    ensures Guaranteed(meta, crypto, own, n) <==> Covers(meta, crypto, own, n)
  {
    if Covers(meta, crypto, own, n) {
      forall d, signers, p | PassesRestore(d, signers, p, meta, crypto) ensures OwnSigned(own, signers, n) {
        CoveredHaveSigned(d, signers, p, meta, crypto, own, n);
      }
    } else {
      var admins := Elements(AddressesOf(meta.admins, crypto));
      ElementsSize(AddressesOf(meta.admins, crypto));
      Parted(admins, own);
      var picked := FewestOwn(admins, own, meta.adminsThreshold);
      var signers, p := PassesWith(meta, crypto, own, picked, 0, 0);
      assert !OwnSigned(own, signers, n);
    }
  }

  /** The backup's own admins, under a threshold not below the backup's, are covered. */
  lemma SameAdminsCover(meta: MetaData, crypto: Crypto, n: nat)
    requires AllParse(meta.admins, crypto) && NoDuplicates(AddressesOf(meta.admins, crypto))
    requires meta.adminsThreshold >= n
    ensures Guaranteed(meta, crypto, Elements(AddressesOf(meta.admins, crypto)), n)
  {
    var admins := Elements(AddressesOf(meta.admins, crypto));
    assert admins * admins == admins;
    ElementsSize(AddressesOf(meta.admins, crypto));
    GuaranteedIff(meta, crypto, admins, n);
  }

  /** One admin added beside the backup's only one is enough for a restore, of any epoch
      and message, to pass without the latter. */
  lemma OwnAdminNeedNotSign(meta: MetaData, crypto: Crypto, own: PublicKey, added: PublicKey, epoch: nat, message: nat)
    returns (signers: seq<Address>, p: SigningPolicy)
    requires meta.admins == [own, added] && meta.adminsThreshold == 1 && AllParse(meta.admins, crypto)
    requires crypto.address(own) != crypto.address(added)
    ensures PassesRestore(DataFor(meta, crypto, epoch, message), signers, p, meta, crypto)
    ensures crypto.address(own).Some? && crypto.address(own).value !in signers
  {
    assert meta.admins[0] == own && meta.admins[1] == added;
    var o, a := crypto.address(own).value, crypto.address(added).value;
    assert AddressesOf(meta.admins, crypto) == [o, a];
    signers, p := PassesWith(meta, crypto, {o}, {a}, epoch, message);
    assert o !in {o} * Elements(signers);
  }
}
