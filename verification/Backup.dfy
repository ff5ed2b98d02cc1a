/** Backing a wallet up: internal/wallets/backup/backup.go.

    Cryptography is a parameter. ECIES is ideal: a ciphertext is its recipient
    together with its plaintext. */
module Backup {
  import opened Wrappers
  import opened Polynomial
  import opened Field
  import opened Shamir
  import opened SplitKey
  import opened Privacy
  import opened Weights
  import opened Wallets

  type Signature = nat

  /** One of the two additive parts of one backup. */
  datatype PartialId = PartialId(id: BackupId, isAdmin: bool)

  datatype KeySplitData = KeySplitData(shares: seq<Share>, partialId: PartialId, owner: PublicKey)

  datatype KeySplit = KeySplit(data: KeySplitData, signature: Signature)

  datatype Sealed = Sealed(recipient: PublicKey, plaintext: KeySplit)

  datatype EncryptedShares = EncryptedShares(
    splits: seq<Sealed>, owners: seq<PublicKey>, threshold: nat, weights: seq<Uint16>)

  datatype MetaData = MetaData(
    id: BackupId,
    fieldId: nat,
    admins: seq<PublicKey>,
    adminsThreshold: Uint64,
    providersThreshold: Uint64,
    cosigners: seq<Address>,
    cosignersThreshold: Uint64)

  datatype WalletBackup = WalletBackup(
    meta: MetaData, admin: EncryptedShares, provider: EncryptedShares, signature: Signature)

  /** The address of a public key that parses, key derivation, the wallet key's signatures on splits and
      on the backup, and their verification under the public key named in the split or the backup. */
  datatype Crypto = Crypto(
    address: PublicKey -> Option<Address>,
    pubKey: seq<Byte> -> Option<seq<Byte>>,
    sign: (seq<Byte>, KeySplitData) -> Option<Signature>,
    verify: (KeySplitData, Signature) -> bool,
    signBackup: (seq<Byte>, MetaData, EncryptedShares, EncryptedShares) -> Option<Signature>,
    verifyBackup: (MetaData, EncryptedShares, EncryptedShares, Signature) -> bool)

  /** The two fields of the package; `FieldFor` uses the first for every
      supported algorithm, `FieldForID` resolves either. */
  datatype Fields = Fields(secp256k1Order: Field, primeAbove256: Field)

  ghost predicate FieldsOk(fs: Fields) {
    Valid(fs.secp256k1Order) && Valid(fs.primeAbove256) && fs.secp256k1Order.id != fs.primeAbove256.id
  }

  function FieldFor(fs: Fields, algo: Hash): (r: Result<Field>)
    ensures r.Ok? <==> algo in {EVM_SIGN_ALGO, XRP_SIGN_ALGO, VRF_ALGO}
  {
    if SupportedAlgo(algo) then Ok(fs.secp256k1Order) else Err("no secret sharing field defined")
  }

  function FieldForId(fs: Fields, id: nat): (r: Result<Field>)
    ensures r.Ok? <==> id in {fs.secp256k1Order.id, fs.primeAbove256.id}
    ensures r.Ok? ==> r.value.id == id && r.value in {fs.secp256k1Order, fs.primeAbove256}
  {
    if id == fs.secp256k1Order.id then Ok(fs.secp256k1Order)
    else if id == fs.primeAbove256.id then Ok(fs.primeAbove256)
    else Err("unknown secret sharing field")
  }

  // ---- weighted blocks of shares -----------------------------------------------

  /** Where the i-th block starts. */
  function Offset(weights: seq<Uint16>, i: nat): nat
    requires i <= |weights|
  {
    if i == 0 then 0 else Offset(weights, i - 1) + weights[i - 1]
  }

  lemma {:induction false} OffsetIsTotal(weights: seq<Uint16>, i: nat)
    requires i <= |weights|
    ensures Offset(weights, i) == Total(weights[..i])
  {
    if i > 0 {
      OffsetIsTotal(weights, i - 1);
      TotalPrefix(weights, i - 1);
    }
  }

  lemma {:induction false} OffsetMonotone(weights: seq<Uint16>, i: nat, j: nat)
    requires i <= j <= |weights|
    ensures Offset(weights, i) <= Offset(weights, j) <= Total(weights)
  {
    OffsetIsTotal(weights, j);
    TotalPrefix(weights, j);
    if i < j {
      OffsetMonotone(weights, i, j - 1);
    }
  }

  /** The i-th contiguous block of shares. */
  function Block(shares: seq<Share>, weights: seq<Uint16>, i: nat): (b: seq<Share>)
    requires i < |weights| && |shares| == Total(weights)
    ensures |b| == weights[i]
  {
    OffsetMonotone(weights, i, i + 1);
    shares[Offset(weights, i)..Offset(weights, i + 1)]
  }

  /** What `SplitAndEncrypt` produces from the polynomial `c`: for every owner
      its own block of shares, signed by the wallet key and sealed to the owner. */
  ghost predicate Issued(e: EncryptedShares, f: Field, c: seq<int>, pid: PartialId, crypto: Crypto, sk: seq<Byte>) {
    && f.modulus > 0 && Reduced(c, f.modulus)
    && Total(e.weights) < UINT64_LIMIT
    && 1 <= |c| == e.threshold <= Total(e.weights)
    && |e.splits| == |e.owners| == |e.weights|
    && forall i :: 0 <= i < |e.splits| ==>
         && e.splits[i].recipient == e.owners[i]
         && e.splits[i].plaintext.data == SplitData(e, f, c, pid, i)
         && crypto.sign(sk, e.splits[i].plaintext.data) == Some(e.splits[i].plaintext.signature)
  }

  function SplitData(e: EncryptedShares, f: Field, c: seq<int>, pid: PartialId, i: nat): KeySplitData
    requires f.modulus > 0 && i < |e.weights| == |e.owners| && Total(e.weights) < UINT64_LIMIT
  {
    KeySplitData(Block(SharesOf(f, c, Total(e.weights)), e.weights, i), pid, e.owners[i])
  }

  method SumUint64(weights: seq<Uint16>) returns (total: nat)
    ensures total == Total(weights)
  {
    total := 0;
    for i := 0 to |weights|
      invariant total == Total(weights[..i])
    {
      TotalPrefix(weights, i);
      total := total + weights[i];
    }
    assert weights[..|weights|] == weights;
  }

  /** Every signature asked for succeeds. */
  ghost predicate SignsAll(crypto: Crypto, sk: seq<Byte>) {
    && (forall d :: crypto.sign(sk, d).Some?)
    && (forall m, a, p :: crypto.signBackup(sk, m, a, p).Some?)
  }

  /** Every draw succeeds. */
  ghost predicate DrawsAll(rng: Rng) {
    forall i :: rng(i).Some?
  }

  method SplitAndEncrypt(f: Field, secret: seq<Byte>, owners: seq<PublicKey>, threshold: Uint64,
                         weights: seq<Uint16>, backupId: BackupId, crypto: Crypto, sk: seq<Byte>,
                         isAdmin: bool, rng: Rng)
    returns (r: Result<EncryptedShares>)
    requires Valid(f) && RngOver(rng, f) && Total(weights) < UINT64_LIMIT
    ensures r.Ok? ==>
      && |owners| == |weights| && 1 <= threshold <= Total(weights)
      && Element(f, secret).Ok?
      && (forall i :: 1 <= i < threshold ==> rng(i).Some?)
      && r.value.owners == owners && r.value.weights == weights && r.value.threshold == threshold
      && Issued(r.value, f, Coefficients(Element(f, secret).value, rng, threshold),
                PartialId(backupId, isAdmin), crypto, sk)
    ensures SignsAll(crypto, sk) && DrawsAll(rng) ==>
      (r.Ok? <==> |owners| == |weights| && 1 <= threshold <= Total(weights) && Element(f, secret).Ok?)
  {
    if |owners| != |weights| {
      return Err("number of encryption keys and weights do not match");
    }
    var numShares := SumUint64(weights);
    var sharing := SplitToShamirShares(f, secret, numShares, threshold, rng);
    if sharing.Err? {
      return Err(sharing.error);
    }
    var shares := sharing.value;
    var pid := PartialId(backupId, isAdmin);
    var splits: seq<Sealed> := [];
    var weightCounter: nat := 0;
    for i := 0 to |owners|
      invariant |splits| == i && weightCounter == Offset(weights, i)
      invariant forall k :: 0 <= k < i ==>
        && splits[k].recipient == owners[k]
        && splits[k].plaintext.data == KeySplitData(Block(shares, weights, k), pid, owners[k])
        && crypto.sign(sk, splits[k].plaintext.data) == Some(splits[k].plaintext.signature)
    {
      OffsetMonotone(weights, i, i + 1);
      var data := KeySplitData(shares[weightCounter..weightCounter + weights[i]], pid, owners[i]);
      var sig := crypto.sign(sk, data);
      if sig.None? {
        return Err("signing failed");
      }
      splits := splits + [Sealed(owners[i], KeySplit(data, sig.value))];
      weightCounter := weightCounter + weights[i];
    }
    return Ok(EncryptedShares(splits, owners, threshold, weights));
  }

  // ---- the whole backup ------------------------------------------------------------

  /** The backup of `w`: both parts issued from polynomials whose constant terms
      join to the private key, under the wallet's own metadata. */
  ghost predicate BackupFrom(b: WalletBackup, w: WalletInfo, f: Field, crypto: Crypto, ac: seq<int>, pc: seq<int>) {
    && Valid(f) && b.meta.fieldId == f.id
    && SupportedAlgo(w.signingAlgo)
    && b.meta.id.key == w.id && b.meta.id.keyType == w.keyType && b.meta.id.signingAlgo == w.signingAlgo
    && crypto.pubKey(w.privateKey) == Some(b.meta.id.publicKey)
    && b.meta.admins == w.admins == b.admin.owners
    && b.meta.adminsThreshold == w.adminsThreshold == b.admin.threshold
    && b.meta.providersThreshold == b.provider.threshold
    && b.meta.cosigners == w.cosigners && b.meta.cosignersThreshold == w.cosignersThreshold
    && Issued(b.admin, f, ac, PartialId(b.meta.id, true), crypto, w.privateKey)
    && Issued(b.provider, f, pc, PartialId(b.meta.id, false), crypto, w.privateKey)
    && (forall i :: 0 <= i < |b.admin.weights| ==> b.admin.weights[i] == 1)
    && Join(f, [Bytes(f, ac[0]), Bytes(f, pc[0])]) == Some(w.privateKey)
  }

  ghost predicate IsBackupOf(b: WalletBackup, w: WalletInfo, fs: Fields, crypto: Crypto) {
    exists ac, pc :: BackupFrom(b, w, fs.secp256k1Order, crypto, ac, pc)
  }

  /** Inputs for which a backup exists, whatever is drawn. */
  ghost predicate Backupable(w: WalletInfo, providers: seq<PublicKey>, weights: seq<Uint16>,
                             normalization: Uint16, dpThreshold: Uint64, f: Field, crypto: Crypto) {
    && SupportedAlgo(w.signingAlgo)
    && 0 < Total(weights) < UINT16_LIMIT && |providers| == |weights|
    && crypto.pubKey(w.privateKey).Some?
    && |w.privateKey| == f.secretSize && Decode(w.privateKey) < f.modulus
    && 1 <= w.adminsThreshold <= |w.admins|
    && 1 <= dpThreshold <= normalization
  }

  /** Both parts of the private key, each issued from a polynomial of its own. */
  ghost predicate PartsOf(f: Field, w: WalletInfo, id: BackupId, dpThreshold: Uint64, crypto: Crypto,
                          admin: EncryptedShares, provider: EncryptedShares, ac: seq<int>, pc: seq<int>) {
    && Issued(admin, f, ac, PartialId(id, true), crypto, w.privateKey)
    && Issued(provider, f, pc, PartialId(id, false), crypto, w.privateKey)
    && admin.owners == w.admins && admin.threshold == w.adminsThreshold && provider.threshold == dpThreshold
    && (forall i :: 0 <= i < |admin.weights| ==> admin.weights[i] == 1)
    && Join(f, [Bytes(f, ac[0]), Bytes(f, pc[0])]) == Some(w.privateKey)
  }

  /** The stretch of `BackupWallet` that splits the key in two and shares each part. */
  method SplitBothParts(f: Field, w: WalletInfo, providers: seq<PublicKey>, weights: seq<Uint16>, id: BackupId,
                        dpThreshold: Uint64, crypto: Crypto, splitRng: Rng, adminRng: Rng, providerRng: Rng)
    returns (r: Result<(EncryptedShares, EncryptedShares)>)
    requires Valid(f) && |w.admins| < UINT64_LIMIT && Total(weights) < UINT64_LIMIT
    requires RngOver(splitRng, f) && RngOver(adminRng, f) && RngOver(providerRng, f)
    ensures r.Ok? ==>
      && r.value.1.owners == providers && r.value.1.weights == weights
      && Splittable(f, w, providers, weights, dpThreshold)
      && DrawsSucceed(splitRng, adminRng, providerRng, w.adminsThreshold, dpThreshold)
      && var d := Drawn(splitRng, adminRng, providerRng, w.adminsThreshold, dpThreshold);
         PartsOf(f, w, id, dpThreshold, crypto, r.value.0, r.value.1,
                 AdminPolynomial(Decode(w.privateKey), d, f.modulus), ProviderPolynomial(Decode(w.privateKey), d, f.modulus))
    ensures SignsAll(crypto, w.privateKey) && DrawsAll(splitRng) && DrawsAll(adminRng) && DrawsAll(providerRng) ==>
      (r.Ok? <==> Splittable(f, w, providers, weights, dpThreshold))
  {
    var splitKey := SplitSecret(f, w.privateKey, 2, splitRng);
    if splitKey.Err? {
      return Err(splitKey.error);
    }
    var parts := splitKey.value;
    PartsAreElements(f, w.privateKey, splitRng, parts);

    var ones := Ones(|w.admins|);
    TotalOnes(|w.admins|);
    var admin := SplitAndEncrypt(f, parts[0], w.admins, w.adminsThreshold, ones, id, crypto, w.privateKey, true, adminRng);
    if admin.Err? {
      return Err(admin.error);
    }
    var provider :=
      SplitAndEncrypt(f, parts[1], providers, dpThreshold, weights, id, crypto, w.privateKey, false, providerRng);
    if provider.Err? {
      return Err(provider.error);
    }
    DrawnPolynomials(Decode(w.privateKey), splitRng, adminRng, providerRng, f.modulus, w.adminsThreshold, dpThreshold);
    return Ok((admin.value, provider.value));
  }

  /** Inputs whose two parts can be shared out, whatever is drawn. */
  ghost predicate Splittable(f: Field, w: WalletInfo, providers: seq<PublicKey>, weights: seq<Uint16>, dpThreshold: Uint64) {
    && |w.privateKey| == f.secretSize && Decode(w.privateKey) < f.modulus
    && 1 <= w.adminsThreshold <= |w.admins|
    && |providers| == |weights| && 1 <= dpThreshold <= Total(weights)
  }

  /** The i-th split is sealed to the i-th owner, names it, this backup and this part, and
      holds as many shares as the owner's weight. */
  ghost predicate OwnersServed(e: EncryptedShares, owners: seq<PublicKey>, id: BackupId, isAdmin: bool) {
    && |e.splits| == |owners| == |e.weights|
    && forall i :: 0 <= i < |owners| ==>
         && e.splits[i].recipient == owners[i] && e.splits[i].plaintext.data.owner == owners[i]
         && e.splits[i].plaintext.data.partialId.id == id && e.splits[i].plaintext.data.partialId.isAdmin == isAdmin
         && |e.splits[i].plaintext.data.shares| == e.weights[i]
  }

  /** Both parts are issued from the polynomials of what was drawn, and of nothing else. */
  ghost predicate FromDraws(b: WalletBackup, w: WalletInfo, f: Field, crypto: Crypto,
                            splitRng: Rng, adminRng: Rng, providerRng: Rng)
  {
    && f.modulus > 0 && b.meta.adminsThreshold > 0 && b.meta.providersThreshold > 0
    && DrawsSucceed(splitRng, adminRng, providerRng, b.meta.adminsThreshold, b.meta.providersThreshold)
    && var d := Drawn(splitRng, adminRng, providerRng, b.meta.adminsThreshold, b.meta.providersThreshold);
       && Issued(b.admin, f, AdminPolynomial(Decode(w.privateKey), d, f.modulus), PartialId(b.meta.id, true), crypto, w.privateKey)
       && Issued(b.provider, f, ProviderPolynomial(Decode(w.privateKey), d, f.modulus), PartialId(b.meta.id, false), crypto, w.privateKey)
  }

  method BackupWallet(w: WalletInfo, providers: seq<PublicKey>, weights: seq<Uint16>, rewardEpochId: nat,
                      teeId: Address, normalization: Uint16, dpThreshold: Uint64,
                      fs: Fields, crypto: Crypto, nonce: Option<Hash>,
                      splitRng: Rng, adminRng: Rng, providerRng: Rng)
    returns (r: Result<WalletBackup>)
    requires FieldsOk(fs) && |w.admins| < UINT64_LIMIT
    requires RngOver(splitRng, fs.secp256k1Order) && RngOver(adminRng, fs.secp256k1Order)
    requires RngOver(providerRng, fs.secp256k1Order)
    ensures r.Ok? ==> IsBackupOf(r.value, w, fs, crypto)
    ensures r.Ok? ==> Some(r.value.signature) == crypto.signBackup(w.privateKey, r.value.meta, r.value.admin, r.value.provider)
    ensures r.Ok? ==> OwnersServed(r.value.admin, w.admins, r.value.meta.id, true)
                      && OwnersServed(r.value.provider, providers, r.value.meta.id, false)
    ensures r.Ok? ==> FromDraws(r.value, w, fs.secp256k1Order, crypto, splitRng, adminRng, providerRng)
    ensures r.Ok? ==>
      && r.value.meta.id.teeId == teeId && r.value.meta.id.rewardEpochId == rewardEpochId
      && Some(r.value.meta.id.randomNonce) == nonce
      && r.value.meta.providersThreshold == dpThreshold
      && r.value.provider.owners == providers
      && Total(weights) > 0 && Apportions(r.value.provider.weights, weights, normalization)
    ensures r.Ok? ==> Backupable(w, providers, weights, normalization, dpThreshold, fs.secp256k1Order, crypto)
    ensures
      && nonce.Some? && SignsAll(crypto, w.privateKey)
      && DrawsAll(splitRng) && DrawsAll(adminRng) && DrawsAll(providerRng)
      && Backupable(w, providers, weights, normalization, dpThreshold, fs.secp256k1Order, crypto)
      ==> r.Ok?
  {
    var f :- FieldFor(fs, w.signingAlgo);
    var normalized := WeightsNormalization(weights, normalization);
    if normalized.Err? {
      return Err(normalized.error);
    }
    if nonce.None? {
      return Err("random source failed");
    }
    var walletPubKey := crypto.pubKey(w.privateKey);
    if walletPubKey.None? {
      return Err("secret is not a valid secp256k1 scalar");
    }
    var id := BackupId(teeId, w.id, walletPubKey.value, w.keyType, w.signingAlgo, rewardEpochId, nonce.value);
    var meta := MetaData(id, f.id, w.admins, w.adminsThreshold, dpThreshold, w.cosigners, w.cosignersThreshold);

    var both := SplitBothParts(f, w, providers, normalized.value, id, dpThreshold, crypto, splitRng, adminRng, providerRng);
    if both.Err? {
      return Err(both.error);
    }
    var (adminParts, providerParts) := both.value;
    var signature := crypto.signBackup(w.privateKey, meta, adminParts, providerParts);
    if signature.None? {
      return Err("signing failed");
    }
    var b := WalletBackup(meta, adminParts, providerParts, signature.value);
    ghost var d := Drawn(splitRng, adminRng, providerRng, w.adminsThreshold, dpThreshold);
    BackupAssembled(b, w, fs, crypto, AdminPolynomial(Decode(w.privateKey), d, f.modulus),
                    ProviderPolynomial(Decode(w.privateKey), d, f.modulus));
    return Ok(b);
  }

  lemma BackupAssembled(b: WalletBackup, w: WalletInfo, fs: Fields, crypto: Crypto, ac: seq<int>, pc: seq<int>)
    requires BackupFrom(b, w, fs.secp256k1Order, crypto, ac, pc)
    ensures IsBackupOf(b, w, fs, crypto)
    ensures OwnersServed(b.admin, w.admins, b.meta.id, true) && OwnersServed(b.provider, b.provider.owners, b.meta.id, false)
  {
  }

  /** The two parts are encoded elements that join to the secret. */
  lemma PartsAreElements(f: Field, secret: seq<Byte>, rng: Rng, parts: seq<seq<Byte>>)
    requires Valid(f) && RngOver(rng, f) && rng(0).Some?
    requires |secret| == f.secretSize && Decode(secret) < f.modulus
    requires Reduced(SplitValues(Decode(secret), Draws(rng, 1), f.modulus), f.modulus)
    requires parts == EncodeAll(f, SplitValues(Decode(secret), Draws(rng, 1), f.modulus))
    ensures |parts| == 2
    ensures forall i :: 0 <= i < 2 ==>
      && Element(f, parts[i]) == Ok(SplitValues(Decode(secret), Draws(rng, 1), f.modulus)[i])
      && Bytes(f, Element(f, parts[i]).value) == parts[i]
    ensures Join(f, [parts[0], parts[1]]) == Some(secret)
  {
    var v := SplitValues(Decode(secret), Draws(rng, 1), f.modulus);
    ElementOfBytes(f, v[0]);
    ElementOfBytes(f, v[1]);
    assert parts == [parts[0], parts[1]];
    AdditiveRoundTrip(f, secret, Draws(rng, 1));
  }
}
