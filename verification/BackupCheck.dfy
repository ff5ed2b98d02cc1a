/** Checking a backup and opening one's split of it: pkg/wallets/backup/backup.go. */
module BackupCheck {
  import opened Wrappers
  import opened Field
  import opened Weights
  import opened Wallets
  import opened Backup

  method CheckShares(e: EncryptedShares) returns (r: Result<()>)
    ensures r.Ok? <==> |e.splits| == |e.owners| == |e.weights| && e.threshold <= Total(e.weights)
  {
    if |e.splits| != |e.owners| {
      return Err("the number of splits does not match the number of public keys");
    }
    if |e.splits| != |e.weights| {
      return Err("the number of splits does not match the number of weights");
    }
    var total := SumUint64(e.weights);
    return if total < e.threshold then Err("threshold too high") else Ok(());
  }

  /** Everything WalletBackup.Check demands. `teeSigned` stands for the machine's own
      signature, which is added after the backup is made. */
  ghost predicate Passes(b: WalletBackup, crypto: Crypto, teeSigned: bool) {
    && |b.admin.splits| == |b.admin.owners| == |b.admin.weights| && b.admin.threshold <= Total(b.admin.weights)
    && |b.provider.splits| == |b.provider.owners| == |b.provider.weights|
    && b.provider.threshold <= Total(b.provider.weights)
    && b.meta.adminsThreshold == b.admin.threshold && b.meta.providersThreshold == b.provider.threshold
    && b.meta.admins == b.admin.owners
    && crypto.verifyBackup(b.meta, b.admin, b.provider, b.signature)
    && teeSigned
  }

  method Check(b: WalletBackup, crypto: Crypto, teeSigned: bool) returns (r: Result<()>)
    ensures r.Ok? <==> Passes(b, crypto, teeSigned)
  {
    r := CheckShares(b.admin);
    if r.Err? { return; }
    r := CheckShares(b.provider);
    if r.Err? { return; }
    if b.meta.adminsThreshold != b.admin.threshold {
      return Err("admin threshold not matching given data");
    }
    if b.meta.providersThreshold != b.provider.threshold {
      return Err("providers threshold not matching given data");
    }
    if |b.meta.admins| != |b.admin.owners| {
      return Err("length of admin public keys not matching given data");
    }
    for i := 0 to |b.meta.admins|
      invariant forall k :: 0 <= k < i ==> b.meta.admins[k] == b.admin.owners[k]
    {
      if b.meta.admins[i] != b.admin.owners[i] {
        return Err("admin public keys not matching");
      }
    }
    if !crypto.verifyBackup(b.meta, b.admin, b.provider, b.signature) {
      return Err("wallet signature invalid");
    }
    return if teeSigned then Ok(()) else Err("TEE signature invalid");
  }

  /** What a key signs verifies under its own public key: splits, and backups. */
  ghost predicate SignaturesVerify(crypto: Crypto) {
    forall sk, d, s :: crypto.sign(sk, d) == Some(s) && crypto.pubKey(sk) == Some(d.partialId.id.publicKey) ==>
      crypto.verify(d, s)
  }

  ghost predicate BackupSignaturesVerify(crypto: Crypto) {
    forall sk, m, a, p, s :: crypto.signBackup(sk, m, a, p) == Some(s) && crypto.pubKey(sk) == Some(m.id.publicKey) ==>
      crypto.verifyBackup(m, a, p, s)
  }

  /** The backup carries the wallet key's signature over all the rest of it. */
  predicate SignedByOwner(b: WalletBackup, w: WalletInfo, crypto: Crypto) {
    crypto.signBackup(w.privateKey, b.meta, b.admin, b.provider) == Some(b.signature)
  }

  /** A backup as BackupWallet returns it passes the check once the machine has signed. */
  lemma ReturnedBackupPasses(b: WalletBackup, w: WalletInfo, fs: Fields, crypto: Crypto)
    requires FieldsOk(fs) && IsBackupOf(b, w, fs, crypto) && SignedByOwner(b, w, crypto) && BackupSignaturesVerify(crypto)
    ensures Passes(b, crypto, true)
  {
    var ac, pc :| BackupFrom(b, w, fs.secp256k1Order, crypto, ac, pc);
  }

  /** DecryptSplit with the private key that belongs to `key`. */
  function DecryptSplit(sealed: Sealed, key: PublicKey, crypto: Crypto): (r: Result<KeySplit>)
    ensures r.Ok? ==> r.value == sealed.plaintext && r.value.data.owner == key == sealed.recipient
                      && crypto.verify(r.value.data, r.value.signature)
  {
    if sealed.recipient != key then Err("decryption failed")
    else if !crypto.verify(sealed.plaintext.data, sealed.plaintext.signature) then Err("invalid signature")
    else if sealed.plaintext.data.owner != key then Err("public key defined in the split does not match given public key")
    else Ok(sealed.plaintext)
  }

  /** Every owner, and nobody else, opens its own split, and finds in it as many shares as
      its weight, for this backup and this part. */
  lemma OwnersOpenTheirSplits(e: EncryptedShares, id: BackupId, isAdmin: bool, owners: seq<PublicKey>, f: Field, c: seq<int>,
                              crypto: Crypto, sk: seq<Byte>, i: nat, key: PublicKey)
    requires OwnersServed(e, owners, id, isAdmin) && Issued(e, f, c, PartialId(id, isAdmin), crypto, sk) && i < |owners|
    requires SignaturesVerify(crypto) && crypto.pubKey(sk) == Some(id.publicKey)
    ensures DecryptSplit(e.splits[i], key, crypto).Ok? <==> key == owners[i]
    ensures var s := e.splits[i].plaintext;
            && (key == owners[i] ==> DecryptSplit(e.splits[i], key, crypto) == Ok(s))
            && |s.data.shares| == e.weights[i] && s.data.partialId == PartialId(id, isAdmin)
  {
  }
}
