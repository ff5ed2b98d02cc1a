/** The provider restore before it reaches the store: keyRestoreDataCheck in
    internal/processors/instructions/walletutils/walletutil.go, and
    KeyDataProviderRestore behind preprocess. */
module ProviderRestore {
  import opened Wrappers
  import opened Field
  import opened Wallets
  import opened Voters
  import opened Quorum
  import opened Sets
  import opened Signing
  import opened Backup
  import opened Restore
  import opened EndToEnd
  import opened PolicyChain
  import opened PolicyStorage

  const PUBLIC_KEY_SIZE := 64

  /** The decoded request: the address of the machine key it names, if that parses, the
      backup id, the nonce before its range check, and the metadata, if it decodes. */
  datatype RestoreRequest = RestoreRequest(machine: Option<Address>, backupId: BackupId, nonce: nat, meta: Option<MetaData>)

  function AddressesOf(keys: seq<PublicKey>, crypto: Crypto): (a: seq<Address>)
    requires AllParse(keys, crypto)
    ensures |a| == |keys|
  {
    seq(|keys|, i requires 0 <= i < |keys| => crypto.address(keys[i]).value)
  }

  /** The admins of the metadata are distinct and are the instruction's cosigners, one
      way, with the same count and threshold. */
  predicate AdminsMatch(d: Data, meta: MetaData, crypto: Crypto) {
    && AllParse(meta.admins, crypto)
    && NoDuplicates(AddressesOf(meta.admins, crypto))
    && Matching(d.cosigners, AddressesOf(meta.admins, crypto), d.cosignersThreshold, meta.adminsThreshold)
  }

  predicate CosignersOk(meta: MetaData) {
    NoDuplicates(meta.cosigners) && meta.cosignersThreshold <= |meta.cosigners|
  }

  /** Everything keyRestoreDataCheck demands. */
  predicate RestoreDataOk(tee: Address, d: Data, req: RestoreRequest, crypto: Crypto) {
    && req.machine == Some(tee) && SupportedAlgo(req.backupId.signingAlgo)
    && req.nonce < UINT64_LIMIT && req.meta.Some?
    && var meta := req.meta.value;
       && MemberCountsOk(|meta.admins|, |meta.cosigners|)
       && |req.backupId.publicKey| == PUBLIC_KEY_SIZE && meta.id == req.backupId
       && req.backupId.rewardEpochId <= d.rewardEpochId + 1
       && AdminsMatch(d, meta, crypto) && CosignersOk(meta)
  }

  /** At most 50 admins and 50 cosigners, each different from the others; the admins' addresses
      are the instruction's cosigners, and so are their thresholds. */
  ghost predicate MembersAgree(d: Data, meta: MetaData, crypto: Crypto) {
    && |meta.admins| <= 50 && |meta.cosigners| <= 50
    && (forall i, j :: 0 <= i < j < |meta.cosigners| ==> meta.cosigners[i] != meta.cosigners[j])
    && meta.cosignersThreshold <= |meta.cosigners|
    && (forall i :: 0 <= i < |meta.admins| ==> crypto.address(meta.admins[i]).Some?)
    && (forall i, j :: 0 <= i < j < |meta.admins| ==> crypto.address(meta.admins[i]) != crypto.address(meta.admins[j]))
    && (forall a :: a in d.cosigners ==> IsAddressOf(meta.admins, crypto, a))
    && |d.cosigners| == |meta.admins| && d.cosignersThreshold == meta.adminsThreshold
  }

  ghost predicate IsAddressOf(keys: seq<PublicKey>, crypto: Crypto, a: Address) {
    exists i :: 0 <= i < |keys| && crypto.address(keys[i]) == Some(a)
  }

  lemma MembersAgreeIff(d: Data, meta: MetaData, crypto: Crypto)
    ensures MembersAgree(d, meta, crypto) <==>
      MemberCountsOk(|meta.admins|, |meta.cosigners|) && AdminsMatch(d, meta, crypto) && CosignersOk(meta)
  {
    if AllParse(meta.admins, crypto) {
      DistinctIff(meta.admins, crypto);
      forall a ensures a in AddressesOf(meta.admins, crypto) <==> IsAddressOf(meta.admins, crypto, a) {
        IsAddressIff(meta.admins, crypto, a);
      }
      assert (forall a :: a in d.cosigners ==> IsAddressOf(meta.admins, crypto, a)) <==>
        forall i :: 0 <= i < |d.cosigners| ==> d.cosigners[i] in AddressesOf(meta.admins, crypto);
    }
  }

  lemma DistinctIff(keys: seq<PublicKey>, crypto: Crypto)
    requires AllParse(keys, crypto)
    ensures NoDuplicates(AddressesOf(keys, crypto)) <==>
      forall i, j :: 0 <= i < j < |keys| ==> crypto.address(keys[i]) != crypto.address(keys[j])
  {
    var addresses := AddressesOf(keys, crypto);
    if NoDuplicates(addresses) {
      forall i, j | 0 <= i < j < |keys| ensures crypto.address(keys[i]) != crypto.address(keys[j]) {
        assert addresses[i] != addresses[j];
      }
    }
    if forall i, j :: 0 <= i < j < |keys| ==> crypto.address(keys[i]) != crypto.address(keys[j]) {
      forall i, j | 0 <= i < j < |keys| ensures addresses[i] != addresses[j] {
        assert crypto.address(keys[i]) != crypto.address(keys[j]);
      }
    }
  }

  lemma IsAddressIff(keys: seq<PublicKey>, crypto: Crypto, a: Address)
    requires AllParse(keys, crypto)
    ensures a in AddressesOf(keys, crypto) <==> IsAddressOf(keys, crypto, a)
  {
    if i :| 0 <= i < |keys| && crypto.address(keys[i]) == Some(a) {
      assert AddressesOf(keys, crypto)[i] == a;
    }
  }

  method PubKeysToAddresses(keys: seq<PublicKey>, crypto: Crypto) returns (r: Result<seq<Address>>)
    ensures r.Ok? <==> AllParse(keys, crypto)
    ensures r.Ok? ==> r.value == AddressesOf(keys, crypto)
  {
    var addresses: seq<Address> := [];
    for i := 0 to |keys|
      invariant |addresses| == i
      invariant forall k :: 0 <= k < i ==> crypto.address(keys[k]) == Some(addresses[k])
    {
      var parsed := crypto.address(keys[i]);
      if parsed.None? {
        return Err("invalid public key");
      }
      addresses := addresses + [parsed.value];
    }
    return Ok(addresses);
  }

  method CheckMembers(d: Data, meta: MetaData, crypto: Crypto) returns (r: Result<()>)
    ensures r.Ok? <==> AdminsMatch(d, meta, crypto) && CosignersOk(meta)
  {
    var admins := PubKeysToAddresses(meta.admins, crypto);
    if admins.Err? {
      return Err(admins.error);
    }
    var dup := HasDuplicateAddresses(admins.value);
    if dup {
      return Err("backup metadata contains duplicate admin addresses");
    }
    dup := HasDuplicateAddresses(meta.cosigners);
    if dup {
      return Err("backup metadata contains duplicate cosigner addresses");
    }
    if meta.cosignersThreshold > |meta.cosigners| {
      return Err("backup metadata cosigners threshold is greater than the number of cosigners");
    }
    r := CheckMatchingCosigners(d.cosigners, admins.value, d.cosignersThreshold, meta.adminsThreshold);
  }

  method KeyRestoreDataCheck(tee: Address, d: Data, req: RestoreRequest, crypto: Crypto) returns (r: Result<(MetaData, Uint64)>)
    ensures r.Ok? <==> RestoreDataOk(tee, d, req, crypto)
    ensures r.Ok? <==>
      && req.machine == Some(tee) && req.nonce < 0x1_0000_0000_0000_0000 && req.meta.Some?
      && req.backupId.signingAlgo in {EVM_SIGN_ALGO, XRP_SIGN_ALGO, VRF_ALGO} && |req.backupId.publicKey| == 64
      && req.backupId.rewardEpochId <= d.rewardEpochId + 1
      && req.meta.value.id == req.backupId && MembersAgree(d, req.meta.value, crypto)
    ensures r.Ok? ==> req.meta == Some(r.value.0) && r.value.1 == req.nonce
  {
    if req.meta.Some? {
      MembersAgreeIff(d, req.meta.value, crypto);
    }
    if req.machine != Some(tee) {
      return Err("teeID does not match given public key");
    }
    if !SupportedAlgo(req.backupId.signingAlgo) {
      return Err("signing algorithm not supported");
    }
    if req.meta.None? {
      return Err("metadata does not decode");
    }
    var meta := req.meta.value;
    if !MemberCountsOk(|meta.admins|, |meta.cosigners|) {
      return Err("wallet key cannot have that many members");
    }
    if |req.backupId.publicKey| != PUBLIC_KEY_SIZE {
      return Err("unsupported public key format");
    }
    if meta.id != req.backupId {
      return Err("backup ids do not match");
    }
    if req.backupId.rewardEpochId > d.rewardEpochId + 1 {
      return Err("backup reward epoch is in the future of instruction reward epoch");
    }
    var members := CheckMembers(d, meta, crypto);
    if members.Err? {
      return Err(members.error);
    }
    if req.nonce >= UINT64_LIMIT {
      return Err("nonce too large");
    }
    return Ok((meta, req.nonce));
  }

  /** At least the threshold of the metadata's admins, as different people, have signed. */
  ghost predicate AdminsSigned(meta: MetaData, crypto: Crypto, signers: seq<Address>) {
    && AllParse(meta.admins, crypto)
    && |Common(AddressesOf(meta.admins, crypto), signers)| >= meta.adminsThreshold
  }

  /** The signers of an instruction that is accepted and matches this metadata. */
  ghost predicate PassesRestore(d: Data, signers: seq<Address>, p: SigningPolicy, meta: MetaData, crypto: Crypto) {
    PolicyOk(p) && Accepted(d, signers, p) && d.request.Regular? && AdminsMatch(d, meta, crypto)
  }

  /** An accepted restore instruction was signed by the threshold of the admins that its own
      metadata names, and by more provider weight than the policy asks for; nobody but
      those admins are its cosigners. */
  lemma RestoreAuthorised(d: Data, signers: seq<Address>, p: SigningPolicy, meta: MetaData, crypto: Crypto)
    requires PassesRestore(d, signers, p, meta, crypto)
    ensures multiset(d.cosigners) == multiset(AddressesOf(meta.admins, crypto))
    ensures AdminsSigned(meta, crypto, signers)
    ensures WeightOf(p, signers) > p.threshold > 0
  {
    CosignersSigned(d, signers, p, AddressesOf(meta.admins, crypto), meta.adminsThreshold);
  }

  // ---- the admins of the backup itself --------------------------------------------------------

  /** At least n of the machines or people in `own` have signed. */
  ghost predicate OwnSigned(own: set<Address>, signers: seq<Address>, n: nat) {
    |own * Elements(signers)| >= n
  }

  /** Even if every admin of the metadata outside `own` signs, its threshold is only
      reached with n of `own`; or it is not reached at all. */
  ghost predicate Covers(meta: MetaData, crypto: Crypto, own: set<Address>, n: nat)
    requires AllParse(meta.admins, crypto)
  {
    || n == 0
    || meta.adminsThreshold > |meta.admins|
    || meta.adminsThreshold + |Elements(AddressesOf(meta.admins, crypto)) * own| >= |meta.admins| + n
  }

  /** Under metadata that covers `own`, n of them have signed. */
  lemma CoveredHaveSigned(d: Data, signers: seq<Address>, p: SigningPolicy, meta: MetaData, crypto: Crypto,
                          own: set<Address>, n: nat)
    requires PassesRestore(d, signers, p, meta, crypto) && Covers(meta, crypto, own, n)
    ensures OwnSigned(own, signers, n)
  {
    RestoreAuthorised(d, signers, p, meta, crypto);
    var admins := AddressesOf(meta.admins, crypto);
    EnoughOfOwn(admins, signers, Common(admins, signers), own, meta.adminsThreshold, n);
  }

  lemma EnoughOfOwn(admins: seq<Address>, signers: seq<Address>, signed: set<Address>, own: set<Address>,
                    threshold: nat, n: nat)
    requires signed <= Elements(admins) && signed <= Elements(signers) && |signed| >= threshold
    requires n == 0 || threshold > |admins| || threshold + |Elements(admins) * own| >= |admins| + n
    ensures OwnSigned(own, signers, n)
  {
    ElementsSize(admins);
    SubsetSize(signed, Elements(admins));
    LargePart(signed, Elements(admins), own);
    SubsetSize(signed * own, own * Elements(signers));
  }

  // ---- the instruction ----------------------------------------------------------------------------

  /** Where a recovered wallet comes from: the splits that the messages deliver, without
      repeats. */
  ghost predicate RecoveredFrom(w: WalletInfo, messages: seq<Message>, meta: MetaData, fs: Fields, crypto: Crypto)
    requires FieldsOk(fs)
  {
    exists all :: NoRepeats(all) && DataOf(all) == Delivered(messages, |messages|, meta.id, crypto)
                  && Recovered(all, meta, fs, crypto) == Some(w)
  }

  /** If the metadata has the id of a backup of some wallet, this is that wallet's key with
      the members and thresholds of the metadata, and that very wallet exactly if they are
      the same. */
  ghost predicate KeyOfBackup(r: WalletInfo, meta: MetaData, fs: Fields, crypto: Crypto) {
    forall b, w :: IsBackupOf(b, w, fs, crypto) && b.meta.id == meta.id && KeysTellApart(crypto) ==>
      r == WalletFrom(meta, w.privateKey) && (r == AsRestored(w) <==> SameMembers(meta, w))
  }

  /** The instruction passes, and so does the request in its message. */
  ghost predicate MayBeRestored(s: Policies, d: Data, wellFormed: bool, variable: seq<nat>, signatures: seq<nat>,
                                recover: Recover, decode: nat -> Option<RestoreRequest>, tee: Address, crypto: Crypto)
  {
    && wellFormed && (exists signers, p :: Carried(s, d, variable, signatures, recover, signers, p))
    && decode(d.message).Some? && RestoreDataOk(tee, d, decode(d.message).value, crypto)
  }

  /** What these messages deliver of the backup reaches the thresholds of the metadata, which
      names the owners of the admin splits among it. */
  ghost predicate ReachedUnder(b: WalletBackup, messages: seq<Message>, meta: MetaData, crypto: Crypto) {
    && |b.admin.splits| == |b.admin.weights| && |b.provider.splits| == |b.provider.weights|
    && Reaches(b, Delivered(messages, |messages|, meta.id, crypto), meta)
    && OwnersKnown(Delivered(messages, |messages|, meta.id, crypto), meta)
    && AllParse(meta.admins, crypto)
  }

  /** If the messages are about some backup, and free of forgeries, and the thresholds are not
      below its own, recovery succeeds exactly when they reach them. */
  ghost predicate RestoredIff(ok: bool, messages: seq<Message>, meta: MetaData, fs: Fields, crypto: Crypto) {
    forall b, w :: IsBackupOf(b, w, fs, crypto) && NotBelow(meta, b) && OnlyIssued(b, messages, crypto) ==>
      (ok <==> ReachedUnder(b, messages, meta, crypto))
  }

  /** KeyDataProviderRestore up to the store. `decode` reads the request out of the
      instruction's message; `decrypt` opens and parses one variable message. */
  method RecoverForInstruction(policies: Storage, env: Env, d: Data, wellFormed: bool, variable: seq<nat>,
                               signatures: seq<nat>, recover: Recover, decode: nat -> Option<RestoreRequest>,
                               tee: Address, decrypt: nat -> Message, fs: Fields, crypto: Crypto)
    returns (r: Result<(WalletInfo, Uint64)>, signers: seq<Address>, p: SigningPolicy)
    requires Inv(policies.Value(), env) && FieldsOk(fs) && d.request.Regular?
    ensures r.Ok? ==> Carried(policies.Value(), d, variable, signatures, recover, signers, p)
    ensures r.Ok? ==> decode(d.message).Some? && RestoreDataOk(tee, d, decode(d.message).value, crypto)
    ensures r.Ok? ==> r.value.1 == decode(d.message).value.nonce
    ensures r.Ok? ==> AdminsSigned(decode(d.message).value.meta.value, crypto, signers) && WeightOf(p, signers) > p.threshold > 0
    ensures r.Ok? ==> forall own, n :: Covers(decode(d.message).value.meta.value, crypto, own, n) ==> OwnSigned(own, signers, n)
    ensures r.Ok? ==> var meta := decode(d.message).value.meta.value;
      RecoveredFrom(r.value.0, Opened(variable, decrypt), meta, fs, crypto) && KeyOfBackup(r.value.0, meta, fs, crypto)
    ensures r.Ok? ==> MayBeRestored(policies.Value(), d, wellFormed, variable, signatures, recover, decode, tee, crypto)
    ensures MayBeRestored(policies.Value(), d, wellFormed, variable, signatures, recover, decode, tee, crypto) ==>
      RestoredIff(r.Ok?, Opened(variable, decrypt), decode(d.message).value.meta.value, fs, crypto)
  {
    signers, p := [], SigningPolicy(0, 0, [], [], 0);
    var passed := policies.Preprocess(env, d, wellFormed, variable, signatures, recover);
    if passed.Err? {
      r := Err(passed.error);
      return;
    }
    signers, p := passed.value.0, passed.value.1;
    if decode(d.message).None? {
      r := Err("restore request does not decode");
      return;
    }
    var checked := KeyRestoreDataCheck(tee, d, decode(d.message).value, crypto);
    if checked.Err? {
      r := Err(checked.error);
      return;
    }
    var (meta, nonce) := checked.value;
    var recovered := RecoverFromMessages(Opened(variable, decrypt), meta, fs, crypto);
    if recovered.Err? {
      r := Err(recovered.error);
      return;
    }
    RestoreAuthorised(d, signers, p, meta, crypto);
    AllCoveredHaveSigned(d, signers, p, meta, crypto);
    r := Ok((recovered.value, nonce));
  }

  lemma AllCoveredHaveSigned(d: Data, signers: seq<Address>, p: SigningPolicy, meta: MetaData, crypto: Crypto)
    requires PassesRestore(d, signers, p, meta, crypto)
    ensures forall own, n :: Covers(meta, crypto, own, n) ==> OwnSigned(own, signers, n)
  {
    forall own, n | Covers(meta, crypto, own, n) ensures OwnSigned(own, signers, n) {
      CoveredHaveSigned(d, signers, p, meta, crypto, own, n);
    }
  }

  function Opened(variable: seq<nat>, decrypt: nat -> Message): seq<Message> {
    seq(|variable|, i requires 0 <= i < |variable| => decrypt(variable[i]))
  }

  method RecoverFromMessages(messages: seq<Message>, meta: MetaData, fs: Fields, crypto: Crypto) returns (r: Result<WalletInfo>)
    requires FieldsOk(fs)
    ensures r.Ok? ==> RecoveredFrom(r.value, messages, meta, fs, crypto) && KeyOfBackup(r.value, meta, fs, crypto)
    ensures RestoredIff(r.Ok?, messages, meta, fs, crypto)
  {
    var all, failed := ProcessKeySplitMessages(messages, meta.id, crypto);
    r := RecoverWallet(all, meta, fs, crypto);
    forall b, w | IsBackupOf(b, w, fs, crypto) && NotBelow(meta, b) && OnlyIssued(b, messages, crypto)
      ensures r.Ok? <==> ReachedUnder(b, messages, meta, crypto)
    {
      DeliveredIsIssued(b, messages, crypto, |messages|);
      RecoveryUnderMetadata(b, w, fs, crypto, meta, all);
    }
    if r.Ok? {
      forall b, w | IsBackupOf(b, w, fs, crypto) && b.meta.id == meta.id && KeysTellApart(crypto)
        ensures r.value == WalletFrom(meta, w.privateKey) && (r.value == AsRestored(w) <==> SameMembers(meta, w))
      {
        RecoveredKeyIsOriginal(b, w, fs, crypto, meta, all);
      }
    }
  }
}
