/** Collecting key splits and recovering the wallet:
    internal/processors/instructions/walletutils/walletutil.go and
    RecoverWallet in internal/wallets/backup/backup.go. */
module Restore {
  import opened Wrappers
  import opened Field
  import opened Shamir
  import opened SplitKey
  import opened Wallets
  import opened Backup

  const MAX_SPLITS_PER_MESSAGE := 2

  /** A decrypted message: one JSON split, a JSON array of splits, or neither. */
  datatype Plaintext = Malformed | Single(split: KeySplit) | Array(splits: seq<KeySplit>)

  datatype Message = Undecryptable | Decrypted(plaintext: Plaintext)

  // ---- collecting splits ------------------------------------------------------

  function SplitsOf(pt: Plaintext): seq<KeySplit> {
    match pt
    case Malformed => []
    case Single(s) => [s]
    case Array(ss) => ss
  }

  /** The split names this backup and carries the wallet key's signature. */
  predicate Authentic(s: KeySplit, id: BackupId, crypto: Crypto) {
    s.data.partialId.id == id && crypto.verify(s.data, s.signature)
  }

  ghost predicate AllAuthentic(splits: seq<KeySplit>, id: BackupId, crypto: Crypto) {
    forall k :: 0 <= k < |splits| ==> Authentic(splits[k], id, crypto)
  }

  /** One message counts as a whole or not at all. */
  predicate Acceptable(m: Message, id: BackupId, crypto: Crypto) {
    && m.Decrypted?
    && !m.plaintext.Malformed?
    && 1 <= |SplitsOf(m.plaintext)| <= MAX_SPLITS_PER_MESSAGE
    && forall i :: 0 <= i < |SplitsOf(m.plaintext)| ==> Authentic(SplitsOf(m.plaintext)[i], id, crypto)
  }

  /** The loop over the splits of one message. */
  method CheckSplits(splits: seq<KeySplit>, id: BackupId, crypto: Crypto) returns (r: Result<()>)
    ensures r.Ok? <==> AllAuthentic(splits, id, crypto)
  {
    for i := 0 to |splits|
      invariant forall k :: 0 <= k < i ==> Authentic(splits[k], id, crypto)
    {
      if splits[i].data.partialId.id != id {
        return Err("wallet backup id in the share does not match the id in the key split");
      }
      if !crypto.verify(splits[i].data, splits[i].signature) {
        return Err("invalid signature");
      }
    }
    return Ok(());
  }

  method ProcessKeySplitPlaintext(pt: Plaintext, id: BackupId, crypto: Crypto) returns (r: Result<seq<KeySplit>>)
    ensures r.Ok? <==> Acceptable(Decrypted(pt), id, crypto)
    ensures r.Ok? ==> r.value == SplitsOf(pt)
  {
    var splits: seq<KeySplit>;
    match pt {
      case Malformed =>
        return Err("not a key split");
      case Array(decoded) =>
        if |decoded| == 0 || |decoded| > MAX_SPLITS_PER_MESSAGE {
          return Err("expected between 1 and 2 key splits");
        }
        splits := decoded;
      case Single(s) =>
        splits := [s];
    }
    var checked := CheckSplits(splits, id, crypto);
    if checked.Err? {
      return Err(checked.error);
    }
    return Ok(splits);
  }

  ghost function DataOf(splits: seq<KeySplit>): set<KeySplitData> {
    set i | 0 <= i < |splits| :: splits[i].data
  }

  ghost predicate NoRepeats(splits: seq<KeySplit>) {
    forall i, j :: 0 <= i < j < |splits| ==> splits[i].data != splits[j].data
  }

  /** Everything the first n messages deliver, however often and in whatever order. */
  ghost function Delivered(messages: seq<Message>, n: nat, id: BackupId, crypto: Crypto): set<KeySplitData>
    requires n <= |messages|
  {
    if n == 0 then {}
    else Delivered(messages, n - 1, id, crypto)
         + if Acceptable(messages[n - 1], id, crypto) then DataOf(SplitsOf(messages[n - 1].plaintext)) else {}
  }

  /** Some split of the message was seen before, earlier or in the message itself. */
  ghost predicate Repeats(seen: set<KeySplitData>, splits: seq<KeySplit>, n: nat)
    requires n <= |splits|
  {
    exists j :: 0 <= j < n && SeenBefore(seen, splits, j)
  }

  ghost predicate SeenBefore(seen: set<KeySplitData>, splits: seq<KeySplit>, j: nat)
    requires j < |splits|
  {
    splits[j].data in seen + DataOf(splits[..j])
  }

  /** What the status of a restore reports at position i. */
  ghost predicate Fails(messages: seq<Message>, i: nat, id: BackupId, crypto: Crypto)
    requires i < |messages|
  {
    Acceptable(messages[i], id, crypto) ==>
      var splits := SplitsOf(messages[i].plaintext);
      Repeats(Delivered(messages, i, id, crypto), splits, |splits|)
  }

  /** The inner loop: append the splits of one message that were not seen before.
      The hash of a split stands for its data, being injective. */
  method AddUnseen(all: seq<KeySplit>, seen: set<KeySplitData>, splits: seq<KeySplit>,
                   ghost id: BackupId, ghost crypto: Crypto)
    returns (all': seq<KeySplit>, seen': set<KeySplitData>, repeated: nat)
    requires NoRepeats(all) && seen == DataOf(all)
    requires AllAuthentic(all, id, crypto) && AllAuthentic(splits, id, crypto)
    ensures NoRepeats(all') && seen' == DataOf(all') == DataOf(all) + DataOf(splits)
    ensures AllAuthentic(all', id, crypto)
    ensures |all'| + repeated == |all| + |splits|
    ensures repeated > 0 <==> Repeats(seen, splits, |splits|)
  {
    all', seen', repeated := all, seen, 0;
    for j := 0 to |splits|
      invariant NoRepeats(all') && seen' == DataOf(all') == DataOf(all) + DataOf(splits[..j])
      invariant AllAuthentic(all', id, crypto)
      invariant |all'| + repeated == |all| + j
      invariant repeated > 0 <==> Repeats(seen, splits, j)
    {
      RepeatsNext(seen, splits, j);
      DataOfAppend(splits[..j], splits[j]);
      assert splits[..j + 1] == splits[..j] + [splits[j]];
      if splits[j].data in seen' {
        repeated := repeated + 1;
      } else {
        DataOfAppend(all', splits[j]);
        seen' := seen' + {splits[j].data};
        all' := all' + [splits[j]];
      }
    }
    assert splits[..|splits|] == splits;
  }

  function Times(n: nat, i: nat): (r: seq<nat>)
    ensures |r| == n && forall k :: k in r <==> k == i && n > 0
  {
    var r := seq(n, _ => i);
    assert n > 0 ==> r[0] == i;
    r
  }

  lemma RepeatsNext(seen: set<KeySplitData>, splits: seq<KeySplit>, j: nat)
    requires j < |splits|
    ensures Repeats(seen, splits, j + 1) <==> Repeats(seen, splits, j) || splits[j].data in seen + DataOf(splits[..j])
  {
    if splits[j].data in seen + DataOf(splits[..j]) {
      assert SeenBefore(seen, splits, j);
    }
  }

  /** The message holds this split, alone or in an array. */
  predicate Holds(m: Message, s: KeySplit) {
    m.Decrypted? && ((m.plaintext.Single? && m.plaintext.split == s) || (m.plaintext.Array? && s in m.plaintext.splits))
  }

  /** Everything the message holds names this backup and carries a signature that verifies. */
  ghost predicate AllGenuine(m: Message, id: BackupId, crypto: Crypto) {
    forall s :: Holds(m, s) ==> s.data.partialId.id == id && crypto.verify(s.data, s.signature)
  }

  /** What a message has to be, in terms of what was received: one split, or an array of
      one or two. */
  predicate WellFormed(m: Message) {
    m.Decrypted? && (m.plaintext.Single? || (m.plaintext.Array? && 1 <= |m.plaintext.splits| <= 2))
  }

  /** One split, or an array of one or two, all of them genuine. */
  ghost predicate Counts(m: Message, id: BackupId, crypto: Crypto) {
    WellFormed(m) && AllGenuine(m, id, crypto)
  }

  /** That is what the checks accept. */
  lemma AcceptableIff(m: Message, id: BackupId, crypto: Crypto)
    ensures Acceptable(m, id, crypto) <==> Counts(m, id, crypto)
  {
    if WellFormed(m) {
      forall j | 0 <= j < |SplitsOf(m.plaintext)| ensures Holds(m, SplitsOf(m.plaintext)[j]) {
      }
      forall s | Holds(m, s) ensures s in SplitsOf(m.plaintext) {
      }
    }
  }

  method ProcessKeySplitMessages(messages: seq<Message>, id: BackupId, crypto: Crypto)
    returns (all: seq<KeySplit>, failed: seq<nat>)
    ensures forall k :: 0 <= k < |all| ==> all[k].data.partialId.id == id && crypto.verify(all[k].data, all[k].signature)
    ensures forall i: nat :: i < |messages| && !Counts(messages[i], id, crypto) ==> i in failed
    ensures forall i: nat, s :: i < |messages| && Counts(messages[i], id, crypto) && Holds(messages[i], s) ==>
              s.data in DataOf(all)
    ensures NoRepeats(all) && DataOf(all) == Delivered(messages, |messages|, id, crypto)
    ensures AllAuthentic(all, id, crypto)
    ensures forall i: nat :: i in failed <==> i < |messages| && Fails(messages, i, id, crypto)
  {
    all, failed := [], [];
    var seen: set<KeySplitData> := {};
    for i := 0 to |messages|
      invariant NoRepeats(all) && seen == DataOf(all) == Delivered(messages, i, id, crypto)
      invariant AllAuthentic(all, id, crypto)
      invariant forall k: nat :: k in failed <==> k < i && Fails(messages, k, id, crypto)
    {
      if messages[i].Undecryptable? {
        failed := failed + [i];
      } else {
        var parsed := ProcessKeySplitPlaintext(messages[i].plaintext, id, crypto);
        if parsed.Err? {
          failed := failed + [i];
        } else {
          assert AllAuthentic(parsed.value, id, crypto);
          var repeated;
          all, seen, repeated := AddUnseen(all, seen, parsed.value, id, crypto);
          failed := failed + Times(repeated, i);
        }
      }
    }
    WhatCounts(messages, id, crypto);
  }

  /** Read message by message: what is not acceptable fails, and what is is delivered. */
  lemma WhatCounts(messages: seq<Message>, id: BackupId, crypto: Crypto)
    ensures forall i: nat :: i < |messages| && !Counts(messages[i], id, crypto) ==>
              Fails(messages, i, id, crypto)
    ensures forall i: nat, s :: i < |messages| && Counts(messages[i], id, crypto) && Holds(messages[i], s) ==>
              s.data in Delivered(messages, |messages|, id, crypto)
  {
    forall i: nat | i < |messages|
      ensures Acceptable(messages[i], id, crypto) <==> Counts(messages[i], id, crypto)
    {
      AcceptableIff(messages[i], id, crypto);
    }
    forall i: nat, s | i < |messages| && Counts(messages[i], id, crypto) && Holds(messages[i], s)
      ensures s.data in Delivered(messages, |messages|, id, crypto)
    {
      HeldIsDelivered(messages, |messages|, id, crypto, i, s);
    }
  }

  lemma {:induction false} HeldIsDelivered(messages: seq<Message>, n: nat, id: BackupId, crypto: Crypto, i: nat, s: KeySplit)
    requires i < n <= |messages| && Acceptable(messages[i], id, crypto) && Holds(messages[i], s)
    ensures s.data in Delivered(messages, n, id, crypto)
  {
    if i < n - 1 {
      HeldIsDelivered(messages, n - 1, id, crypto, i, s);
    } else {
      var splits := SplitsOf(messages[i].plaintext);
      var j :| 0 <= j < |splits| && splits[j] == s;
      assert s.data in DataOf(splits);
    }
  }

  lemma DataOfAppend(splits: seq<KeySplit>, s: KeySplit)
    ensures DataOf(splits + [s]) == DataOf(splits) + {s.data}
    ensures s.data !in DataOf(splits) && NoRepeats(splits) ==> NoRepeats(splits + [s])
  {
    var all := splits + [s];
    forall d ensures d in DataOf(all) <==> d in DataOf(splits) + {s.data} {
      if d in DataOf(splits) {
        var i :| 0 <= i < |splits| && splits[i].data == d;
        assert all[i].data == d;
      }
      if d == s.data {
        assert all[|splits|].data == d;
      }
    }
  }

  // ---- recovering -----------------------------------------------------------------

  function Flatten(splits: seq<KeySplit>): seq<Share> {
    if |splits| == 0 then [] else Flatten(splits[..|splits| - 1]) + splits[|splits| - 1].data.shares
  }

  /** The splits of one part, in the order they came. */
  function OfPart(splits: seq<KeySplit>, isAdmin: bool): seq<KeySplit> {
    if |splits| == 0 then [] else
      var rest := OfPart(splits[..|splits| - 1], isAdmin);
      var last := splits[|splits| - 1];
      if last.data.partialId.isAdmin == isAdmin then rest + [last] else rest
  }

  /** CheckKeyShares: not empty, one id throughout, known admins. */
  predicate SharesChecked(splits: seq<KeySplit>, meta: MetaData) {
    && |splits| > 0
    && (forall i :: 0 <= i < |splits| ==> splits[i].data.partialId == splits[0].data.partialId)
    && (forall i :: 0 <= i < |splits| && splits[i].data.partialId.isAdmin ==> splits[i].data.owner in meta.admins)
    && splits[0].data.partialId.id == meta.id
  }

  method CheckKeyShares(splits: seq<KeySplit>, meta: MetaData) returns (r: Result<()>)
    ensures r.Ok? <==> SharesChecked(splits, meta)
  {
    if |splits| == 0 {
      return Err("shares should not be empty");
    }
    var pid := splits[0].data.partialId;
    for i := 0 to |splits|
      invariant forall k :: 0 <= k < i ==> splits[k].data.partialId == pid
      invariant forall k :: 0 <= k < i && splits[k].data.partialId.isAdmin ==> splits[k].data.owner in meta.admins
    {
      if splits[i].data.partialId != pid {
        return Err("one of key split's ids does not match expected id");
      }
      if splits[i].data.partialId.isAdmin && splits[i].data.owner !in meta.admins {
        return Err("one of admins public keys is not in the backup metadata");
      }
    }
    if pid.id != meta.id {
      return Err("wallet ids do not match");
    }
    return Ok(());
  }

  /** What JoinKeyShares returns: the first `threshold` shares, interpolated. */
  ghost function JoinedPart(f: Field, splits: seq<KeySplit>, threshold: nat): Option<seq<Byte>>
    requires Valid(f)
  {
    if threshold == 0 || |Flatten(splits)| < threshold then None
    else Reconstruct(f, Flatten(splits)[..threshold])
  }

  method JoinKeyShares(f: Field, splits: seq<KeySplit>, threshold: Uint64) returns (r: Result<seq<Byte>>)
    requires Valid(f)
    ensures r.Ok? <==> JoinedPart(f, splits, threshold).Some?
    ensures r.Ok? ==> JoinedPart(f, splits, threshold) == Some(r.value)
    ensures r.Ok? ==> 0 < threshold <= |Flatten(splits)| && Reconstruct(f, Flatten(splits)[..threshold]) == Some(r.value)
  {
    if threshold == 0 {
      return Err("threshold should be positive");
    }
    var shares: seq<Share> := [];
    for i := 0 to |splits|
      invariant shares == Flatten(splits[..i])
    {
      assert splits[..i + 1][..i] == splits[..i];
      shares := shares + splits[i].data.shares;
    }
    assert splits[..|splits|] == splits;
    if |shares| < threshold {
      return Err("threshold of shares is not reached");
    }
    r := CombineShamirShares(f, shares[..threshold]);
  }

  /** What RecoverWallet returns. */
  ghost function Recovered(splits: seq<KeySplit>, meta: MetaData, fs: Fields, crypto: Crypto): Option<WalletInfo>
    requires FieldsOk(fs)
  {
    var f := FieldForId(fs, meta.fieldId);
    if f.Err? then None else
      var secret := JoinedSecret(f.value, OfPart(splits, true), OfPart(splits, false), meta);
      if secret.Some? && Fits(meta, secret.value, crypto) then Some(WalletFrom(meta, secret.value)) else None
  }

  /** The checks on a joined secret. */
  predicate Fits(meta: MetaData, secret: seq<Byte>, crypto: Crypto) {
    && AllParse(meta.admins, crypto) && SupportedAlgo(meta.id.signingAlgo)
    && crypto.pubKey(secret) == Some(meta.id.publicKey)
  }

  /** Every admin key of the metadata parses. */
  predicate AllParse(keys: seq<PublicKey>, crypto: Crypto) {
    forall i :: 0 <= i < |keys| ==> crypto.address(keys[i]).Some?
  }

  method ParseAdmins(keys: seq<PublicKey>, crypto: Crypto) returns (r: Result<()>)
    ensures r.Ok? <==> AllParse(keys, crypto)
  {
    for i := 0 to |keys|
      invariant forall k :: 0 <= k < i ==> crypto.address(keys[k]).Some?
    {
      if crypto.address(keys[i]).None? {
        return Err("invalid public key");
      }
    }
    return Ok(());
  }

  function WalletFrom(meta: MetaData, secret: seq<Byte>): WalletInfo {
    WalletInfo(meta.id.key, secret, meta.id.keyType, meta.id.signingAlgo, true, meta.admins, meta.adminsThreshold,
               meta.cosigners, meta.cosignersThreshold, ZERO_HASH, [])
  }

  method PartitionSplits(splits: seq<KeySplit>) returns (adminSplits: seq<KeySplit>, providerSplits: seq<KeySplit>)
    ensures adminSplits == OfPart(splits, true) && providerSplits == OfPart(splits, false)
  {
    adminSplits, providerSplits := [], [];
    for i := 0 to |splits|
      invariant adminSplits == OfPart(splits[..i], true) && providerSplits == OfPart(splits[..i], false)
    {
      assert splits[..i + 1][..i] == splits[..i];
      if splits[i].data.partialId.isAdmin {
        adminSplits := adminSplits + [splits[i]];
      } else {
        providerSplits := providerSplits + [splits[i]];
      }
    }
    assert splits[..|splits|] == splits;
  }

  /** Both parts of the key, checked and joined. */
  ghost function JoinedSecret(f: Field, admin: seq<KeySplit>, provider: seq<KeySplit>, meta: MetaData): Option<seq<Byte>>
    requires Valid(f)
  {
    if !SharesChecked(admin, meta) || !SharesChecked(provider, meta) then None else
      var a, p := JoinedPart(f, admin, meta.adminsThreshold), JoinedPart(f, provider, meta.providersThreshold);
      if a.None? || p.None? then None else Join(f, [a.value, p.value])
  }

  method JoinBothParts(f: Field, admin: seq<KeySplit>, provider: seq<KeySplit>, meta: MetaData) returns (r: Result<seq<Byte>>)
    requires Valid(f)
    ensures r.Ok? <==> JoinedSecret(f, admin, provider, meta).Some?
    ensures r.Ok? ==> JoinedSecret(f, admin, provider, meta) == Some(r.value)
  {
    var checked := CheckKeyShares(admin, meta);
    if checked.Err? { return Err(checked.error); }
    var adminKey := JoinKeyShares(f, admin, meta.adminsThreshold);
    if adminKey.Err? { return Err(adminKey.error); }
    checked := CheckKeyShares(provider, meta);
    if checked.Err? { return Err(checked.error); }
    var providerKey := JoinKeyShares(f, provider, meta.providersThreshold);
    if providerKey.Err? { return Err(providerKey.error); }
    r := JoinSecret(f, [adminKey.value, providerKey.value]);
  }

  method CheckSecret(meta: MetaData, secret: seq<Byte>, crypto: Crypto) returns (r: Result<()>)
    ensures r.Ok? <==> Fits(meta, secret, crypto)
  {
    r := ParseAdmins(meta.admins, crypto);
    if r.Err? { return; }
    if !SupportedAlgo(meta.id.signingAlgo) { return Err("unsupported signing algorithm"); }
    var pubKey := crypto.pubKey(secret);
    if pubKey.None? { return Err("secret is not a valid secp256k1 scalar"); }
    if pubKey.value != meta.id.publicKey {
      return Err("private key reconstruction error: final result does not match address");
    }
    return Ok(());
  }

  method RecoverWallet(splits: seq<KeySplit>, meta: MetaData, fs: Fields, crypto: Crypto)
    returns (r: Result<WalletInfo>)
    requires FieldsOk(fs)
    ensures r.Ok? ==> SplitsBelong(splits, meta) && EnoughShares(splits, meta)
    ensures r.Ok? ==>
      && (forall i :: 0 <= i < |meta.admins| ==> crypto.address(meta.admins[i]).Some?)
      && (meta.id.signingAlgo == EVM_SIGN_ALGO || meta.id.signingAlgo == XRP_SIGN_ALGO || meta.id.signingAlgo == VRF_ALGO)
      && crypto.pubKey(r.value.privateKey) == Some(meta.id.publicKey)
    ensures r.Ok? ==>
      && r.value.id == meta.id.key && r.value.keyType == meta.id.keyType && r.value.signingAlgo == meta.id.signingAlgo
      && r.value.admins == meta.admins && r.value.adminsThreshold == meta.adminsThreshold
      && r.value.cosigners == meta.cosigners && r.value.cosignersThreshold == meta.cosignersThreshold
      && r.value.restored && r.value.settingsVersion == ZERO_HASH && r.value.settings == []
    ensures r.Ok? <==> Recovered(splits, meta, fs, crypto).Some?
    ensures r.Ok? ==> Recovered(splits, meta, fs, crypto) == Some(r.value)
  {
    var adminSplits, providerSplits := PartitionSplits(splits);
    var f :- FieldForId(fs, meta.fieldId);
    var secret := JoinBothParts(f, adminSplits, providerSplits, meta);
    if secret.Err? { return Err(secret.error); }
    var checked := CheckSecret(meta, secret.value, crypto);
    if checked.Err? { return Err(checked.error); }
    PartsBelong(splits, meta);
    return Ok(WalletFrom(meta, secret.value));
  }

  /** Every split names the backup of the metadata, and every admin split one of its admins. */
  ghost predicate SplitsBelong(splits: seq<KeySplit>, meta: MetaData) {
    forall k :: 0 <= k < |splits| ==>
      && splits[k].data.partialId.id == meta.id
      && (splits[k].data.partialId.isAdmin ==> splits[k].data.owner in meta.admins)
  }

  /** Neither threshold is zero, and either part has as many shares as its threshold. */
  ghost predicate EnoughShares(splits: seq<KeySplit>, meta: MetaData) {
    && 1 <= meta.adminsThreshold <= SharesHeld(splits, true, |splits|)
    && 1 <= meta.providersThreshold <= SharesHeld(splits, false, |splits|)
  }

  ghost function SharesHeld(splits: seq<KeySplit>, isAdmin: bool, n: nat): nat
    requires n <= |splits|
  {
    if n == 0 then 0
    else SharesHeld(splits, isAdmin, n - 1)
         + if splits[n - 1].data.partialId.isAdmin == isAdmin then |splits[n - 1].data.shares| else 0
  }

  lemma {:induction false} SharesOfPart(splits: seq<KeySplit>, isAdmin: bool, n: nat)
    requires n <= |splits|
    ensures SharesHeld(splits, isAdmin, n) == |Flatten(OfPart(splits[..n], isAdmin))|
  {
    if n > 0 {
      SharesOfPart(splits, isAdmin, n - 1);
      assert splits[..n][..n - 1] == splits[..n - 1];
      var rest, last := OfPart(splits[..n - 1], isAdmin), splits[n - 1];
      assert (rest + [last])[..|rest|] == rest;
    }
  }

  lemma {:induction false} InItsPart(splits: seq<KeySplit>, k: nat, n: nat)
    requires k < n <= |splits|
    ensures splits[k] in OfPart(splits[..n], splits[k].data.partialId.isAdmin)
  {
    assert splits[..n][..n - 1] == splits[..n - 1];
    if k < n - 1 {
      InItsPart(splits, k, n - 1);
    }
  }

  /** What the checks of both parts say of all splits. */
  lemma PartsBelong(splits: seq<KeySplit>, meta: MetaData)
    requires SharesChecked(OfPart(splits, true), meta) && SharesChecked(OfPart(splits, false), meta)
    requires 0 < meta.adminsThreshold <= |Flatten(OfPart(splits, true))|
    requires 0 < meta.providersThreshold <= |Flatten(OfPart(splits, false))|
    ensures SplitsBelong(splits, meta) && EnoughShares(splits, meta)
  {
    assert splits[..|splits|] == splits;
    SharesOfPart(splits, true, |splits|);
    SharesOfPart(splits, false, |splits|);
    forall k | 0 <= k < |splits|
      ensures splits[k].data.partialId.id == meta.id && (splits[k].data.partialId.isAdmin ==> splits[k].data.owner in meta.admins)
    {
      InItsPart(splits, k, |splits|);
      var part := OfPart(splits, splits[k].data.partialId.isAdmin);
      var j :| 0 <= j < |part| && part[j] == splits[k];
    }
  }
}
