# Wallet custody core of the TEE node

A Dafny model of the parts of the node that decide whether a private key can be
recovered, used, moved or destroyed, with proofs of what they promise.

`dafny verify dfyconfig.toml` checks the whole project.

| module | what it models |
|---|---|
| `Sets`, `ModArith`, `Polynomial` | finite sets; congruences, primes, inverses; polynomials modulo a prime and Lagrange interpolation |
| `Field`, `Shamir`, `SplitKey`, `Privacy`, `Weights` | the sharing field, Shamir sharing, additive splitting, what both together hide, normalisation of voter weights |
| `Wallets`, `Backup`, `BackupCheck`, `Restore`, `EndToEnd`, `Coalition`, `ProviderRestore`, `RestoreMetadata` | backing a wallet up, checking a backup and opening splits, collecting splits, recovering the wallet, both together, what a coalition can tell, the restore instruction, and what its metadata can change |
| `Vrf` | the verifiable random function: prover and verifier over an abstract curve |
| `Lifecycle`, `WalletStorage` | key generation, deletion and restore: on values over whole runs, and on the heap with shared status objects |
| `Voters`, `PolicyChain`, `PolicyStorage`, `CurrentPolicy` | signing policies, the chain of approval on values, the store updated in place, and what an accepted instruction says of the active policy |
| `Quorum`, `PolicyQuorums`, `Relay`, `Signing`, `Instructions` | thresholds, what a policy's own threshold is worth, ordering of provider signatures, which keys a payment may use, and both after `preprocess` |
| `MachinePaths`, `DirectTransfer` | governance-approved path lists; any number of nodes that move keys to one another |
| `SignSlots` | admission to the sign goroutines |

Loops of the source are loops here, each proved against a function of its inputs.
The two stores and the node are classes. `WalletStorage.Storage` keeps the two maps
and the status objects they share; its methods take the plain store they stand for
as a ghost argument and say which plain store they stand for afterwards, so that
everything proved of `Lifecycle` runs holds of the heap (`WalletStorage.Execute`).

## Idealisations

- Keccak and the JSON and ABI encodings are injective: a hash or an encoding stands for its content.
- A signature recovers only its true signer. Among the messages of a restore there is no forged split:
  whatever was received that names a backup and verifies was issued by it (`EndToEnd.OnlyIssued`; the
  owners' own splits meet it, `EndToEnd.OwnSplitsOnlyIssued`). A node's envelope verifies only if that node signed it.
- ECIES decrypts what was encrypted: a ciphertext is its recipient with its plaintext.
- A decoded signing policy has distinct voters, a total weight that is the sum of the weights and
  fits uint16, and a 24-bit epoch (`Voters.PolicyOk`).
- Random draws, RFC 6979 nonces, clocks and deadlines are arguments, and every result holds for all of
  them. Draws may fail.
- The moduli are prime and above 2^64 (`Field.Valid`); the curve is any group of prime order whose
  points are pairs of coordinates (`Vrf.IsCurve`, met for instance by the integers modulo a prime:
  `Vrf.IntegersModIsCurve`). `InverseVarTime`, `ModInverse`, `slices.SortFunc` and the Safe library
  appear by their contracts; the Safe's signatures
  are recovered over the Safe's address and the transaction.
- Handlers hold their store's lock, so a run is a sequence of whole steps. The sign slots, which take
  no lock, interleave at every atomic addition.

## Where code and expectation differ

- The VRF verifier rejects a zero response scalar, which the prover does not test for. The prover
  nevertheless never returns one: a zero response makes CGamma and V the same point, and such an
  iteration is skipped (`Vrf.ResponseNotZero`). Completeness therefore needs no side condition.
- docs/vrf.md has proof generation fail when the ZInv denominator is zero and take a random k. The
  code tries up to eight nonces of section 3.2 of RFC 6979, and that is what is modelled.
- docs/backup-restore.md asks for more than half of the voting weight of the current policy. The code
  compares with the threshold of the policy of the instruction's epoch, which is the current one or the
  one before it, and nothing bounds that field. Both matter. Over all runs, an instruction that passes
  outweighs the threshold of the active policy if and only if it does not name the epoch before it
  (`CurrentPolicy.ThresholdGuaranteedIff`; `CurrentPolicy.PreviousEpochFails` gives, for every threshold
  and total, a run in which the signers weigh nothing under the active policy), and it has a majority of
  the active weight if and only if, besides, the threshold is at least half of the total, rounded down
  (`CurrentPolicy.MajorityGuaranteedIff`). Under the policy of its own epoch: over all policies with a
  given threshold and total, quorums are majorities, and any two of them intersect, exactly when the
  threshold is at least half of the total or zero (`PolicyQuorums.ThresholdDecides`); policy by policy the
  exact conditions are `PolicyQuorums.MajorityIff` and `PolicyQuorums.IntersectingIff`, and
  `PolicyQuorums.PolicyQuorumsCanBeDisjoint` gives a failing policy for every other pair of numbers.
  FDC2 requests with a threshold of their own always intersect, even when their thresholds differ
  (`Quorum.QuorumsIntersect`).
- A sign request can be refused while a slot is free, because a refused caller holds its increment
  until it backs out (`SignSlots.RefusedWithFreeSlot`). Exactly, a caller is admitted if and only if
  live goroutines and pending back-outs together are below the cap (`SignSlots.AdmittedIff`).
- A restore onto a node that has no record of the key takes any nonce; ordering starts with that
  first record (`Lifecycle.FirstNonceIsFree`; the exact condition is `Lifecycle.RestoreEffectiveIff`).
- `CheckThresholds` refuses every instruction under a policy whose threshold is zero
  (`PolicyQuorums.QuorumExistsIff`). `UpdatePolicy` neither refuses such a policy nor treats it
  differently once active: any one voter of positive weight then installs the next policy
  (`PolicyChain.OneVoterInstalls`).
- The restore instruction brings the backup's metadata along, and only its id is compared with the
  request. The key cannot change (`EndToEnd.RecoveredKeyIsOriginal`), everything else can: changed
  cosigners, added admins and a raised threshold are restored as they stand
  (`RestoreMetadata.ChangedCosigners`, `RestoreMetadata.AddedAdmins`, `RestoreMetadata.RaisedThreshold`).
  What comes back under metadata from elsewhere is `EndToEnd.RecoveryUnderMetadata`; it is the wallet that
  was backed up if and only if the metadata repeats its members and thresholds
  (`RestoreMetadata.RestoredAsBackedUpIff`).
- docs/backup-restore.md has the cosigner threshold of a restore pinned to the backup's admin set. The
  code pins it to the admins of the metadata in the instruction: with one admin added, the backup's own
  need not sign (`RestoreMetadata.OwnAdminNeedNotSign`). n of the backup's own admins are sure to have
  signed if and only if the metadata's threshold cannot be reached without n of them
  (`RestoreMetadata.GuaranteedIff`), as for instance under the backup's own metadata.

## Model

| member | source | states |
|---|---|---|
| `Field.Element` | pkg/wallets/backup/field.go:130-145 | accepted exactly when no wider than the field and below its modulus, and then the big-endian value |
| `Field.ElementFromUint64` | pkg/wallets/backup/field.go:149-166 | every uint64 is its own field element |
| `Field.ElementOfBytes` | pkg/wallets/backup/field.go:130-172 | reading back a serialised element gives the element |
| `Field.BytesInjective` | pkg/wallets/backup/field.go:170-172 | serialisations are equal exactly for equal elements |
| `Field.SecretBytes` | pkg/wallets/backup/field.go:179-191 | the scan of the leading bytes succeeds exactly when the value fits the secret width, and then gives its encoding at that width |
| `Polynomial.InterpolationUnique` | internal/wallets/backup/shamir.go:74-128 | modulo a prime, n distinct points determine n coefficients |
| `Polynomial.LagrangeAtZero` | internal/wallets/backup/shamir.go:90-127 | the Lagrange sum at zero is the value there of any polynomial through the points |
| `Polynomial.InterpolationExistsUnique` | internal/wallets/backup/shamir.go:36-71 | through any distinct points there is exactly one reduced polynomial |
| `Shamir.EvalPolynomial` | internal/wallets/backup/shamir.go:59-71 | Horner with a reduction at each step is evaluation over the integers, reduced once |
| `Shamir.SplitToShamirShares` | internal/wallets/backup/shamir.go:20-55 | succeeds exactly for 1 <= threshold <= shares, a secret in the field and working draws; share i is (i, value at i) of the polynomial whose coefficients are the secret and the draws, each used once |
| `Shamir.IndicesDistinctModP` | internal/wallets/backup/shamir.go:82-108 | 64-bit indices are different exactly when they are different field elements |
| `Shamir.BasisAtZero` | internal/wallets/backup/shamir.go:96-115 | the inner loop fails exactly on a repeated index and otherwise gives numerator and denominator of the basis polynomial at zero |
| `Shamir.LagrangeTerm` | internal/wallets/backup/shamir.go:90-124 | what one share adds: the next partial Lagrange sum, with an error only for an undecodable share or a repeated index |
| `Shamir.CombineShamirShares` | internal/wallets/backup/shamir.go:77-128 | succeeds exactly on decodable shares with distinct indices, and then interpolates at zero; the missing-inverse branch is only reached for repeated indices |
| `Shamir.ReconstructIsValueAtZero` | internal/wallets/backup/shamir.go:77-128 | the reconstruction is the value at zero of any polynomial of that size through the shares |
| `Shamir.ShamirRoundTrip` | internal/wallets/backup/shamir.go:20-128 | any shares with distinct indices, in any order, at least as many as the threshold, give back the secret |
| `Shamir.OneShareShort` | internal/wallets/backup/shamir.go:44-128 | one share less interpolates to the secret if and only if the highest coefficient was drawn as zero |
| `Shamir.ShamirPrivacy` | internal/wallets/backup/shamir.go:36-71 | with threshold - 1 shares in hand, every candidate secret is explained by exactly one coefficient vector |
| `SplitKey.DrawParts` | internal/wallets/backup/split_key.go:34-45 | all parts but the last are the draws in order, with their sum modulo p |
| `SplitKey.SplitSecret` | internal/wallets/backup/split_key.go:19-54 | exact success condition; n parts, all but the last the draws in order, that add up to the secret modulo p |
| `SplitKey.JoinSecret` | internal/wallets/backup/split_key.go:58-73 | succeeds exactly on non-empty parts in the field whose sum modulo p fits the secret width, and is that sum at that width |
| `SplitKey.SplitSums` | internal/wallets/backup/split_key.go:34-53 | the parts add up to the secret modulo p |
| `SplitKey.AdditiveRoundTrip` | internal/wallets/backup/split_key.go:19-73 | joining what was split returns the secret byte for byte, for every number of parts, draw and width |
| `SplitKey.AdditivePrivacy` | internal/wallets/backup/split_key.go:34-53 | whichever part is missing, every secret is explained by exactly one vector of draws |
| `Privacy.DrawnOk` | pkg/wallets/backup/field.go:194-205 | draws of field elements are draws as the privacy results ask for |
| `Privacy.DrawnPolynomials` | internal/wallets/backup/backup.go:77-91 | the two polynomials are those of the drawn first part and coefficients |
| `Privacy.SeenDetermines` | internal/wallets/backup/shamir.go:36-71 | as many shares as coefficients determine the polynomial |
| `Privacy.BackupPrivacy` | internal/wallets/backup/backup.go:77-91 | with the threshold, or all, of one part's shares and one less than the threshold of the other's, every candidate private key is explained by exactly one choice of everything drawn |
| `Weights.CheckedSum` | internal/wallets/backup/backup.go:112-121 | the wrap test refuses exactly the sums that do not fit uint16 |
| `Weights.QuotientStep` | internal/wallets/backup/backup.go:131-138 | one quotient fits what is left, keeps the remaining ratio from falling and is at least the exact share rounded down |
| `Weights.NextShare` | internal/wallets/backup/backup.go:131-138 | one turn of the loop keeps every bound of the apportionment, and neither subtraction wraps |
| `Weights.HandOutAll` | internal/wallets/backup/backup.go:128-141 | the loop ends with an apportionment of the whole total |
| `Weights.WeightsNormalization` | internal/wallets/backup/backup.go:111-142 | succeeds exactly when the sum is non-zero and fits uint16; the result sums to the total, is at least the floor of each share, gives no prefix more than its part, and zero to zero weights |
| `Weights.ApportionmentUnique` | internal/wallets/backup/backup.go:129-139 | there is only one vector with these properties |
| `Backup.SumUint64` | pkg/utils/utils.go:26-33 | the widened sum is the sum |
| `Backup.SplitAndEncrypt` | internal/wallets/backup/backup.go:146-213 | every owner gets its own contiguous block of the shares of one polynomial, signed and sealed to it; exact success condition when draws and signatures work |
| `Backup.FieldForId` | pkg/wallets/backup/field.go:119-126 | resolves exactly the ids of the two fields, each to its own |
| `Backup.SplitBothParts` | internal/wallets/backup/backup.go:77-91 | both parts are issued from the polynomials of what the three sources draw, whose constant terms join to the private key; exact success condition |
| `Backup.BackupWallet` | internal/wallets/backup/backup.go:26-109 | a returned backup is one of this wallet under its own metadata, signed by the wallet key over all of it, every split sealed to and naming its own owner with as many shares as its apportioned weight, issued from what was drawn and nothing else; it is returned exactly for backupable inputs when draws and signatures work |
| `Backup.PartsAreElements` | internal/wallets/backup/backup.go:77-88 | the two halves are canonical encodings that join to the key |
| `BackupCheck.CheckShares` | pkg/wallets/backup/backup.go:233-245 | passes exactly for aligned splits, owners and weights whose sum reaches the threshold |
| `BackupCheck.Check` | pkg/wallets/backup/backup.go:177-229 | passes exactly when both parts do, thresholds and admins repeat the metadata, and both signatures verify |
| `BackupCheck.ReturnedBackupPasses` | internal/wallets/backup/backup.go:93-109 | a backup signed by its wallet key passes the check once the machine has signed |
| `BackupCheck.DecryptSplit` | pkg/wallets/backup/backup.go:248-270 | whatever is opened was sealed to this key, names it and verifies |
| `BackupCheck.OwnersOpenTheirSplits` | pkg/wallets/backup/backup.go:248-270 | every owner, and nobody else, opens its own split, of this backup and part, with its weight in shares |
| `Restore.ProcessKeySplitPlaintext` | internal/processors/instructions/walletutils/walletutil.go:205-243 | a message counts exactly when it holds one or two splits that all name this backup and verify |
| `Restore.CheckSplits` | internal/processors/instructions/walletutils/walletutil.go:232-240 | passes exactly when every split names this backup and verifies |
| `Restore.AddUnseen` | internal/processors/instructions/walletutils/walletutil.go:165-185 | appends exactly the splits not seen before, counts the repeats and says when there are any |
| `Restore.AcceptableIff` | internal/processors/instructions/walletutils/walletutil.go:205-243 | a message counts exactly when it holds one split, or an array of one or two, each of which names this backup and verifies |
| `Restore.ProcessKeySplitMessages` | internal/processors/instructions/walletutils/walletutil.go:141-192 | every collected split names this backup and verifies; a message that holds anything else is reported, all others' splits are collected, once; the positions reported are exactly those of messages that fail or repeat a split |
| `Restore.CheckKeyShares` | internal/wallets/backup/backup.go:308-330 | passes exactly for a non-empty list under one id, that of the backup, with known admins |
| `Restore.JoinKeyShares` | internal/wallets/backup/backup.go:334-357 | interpolates exactly the first threshold-many collected shares, for a positive threshold that is reached, or fails |
| `Restore.PartitionSplits` | internal/wallets/backup/backup.go:220-228 | admin and provider splits, each in order |
| `Restore.JoinBothParts` | internal/wallets/backup/backup.go:238-258 | succeeds exactly when both parts check and join, and gives their sum |
| `Restore.CheckSecret` | internal/wallets/backup/backup.go:260-301 | passes exactly when all admin keys parse, the algorithm is supported and the public key is the recorded one |
| `Restore.PartsBelong` | internal/wallets/backup/backup.go:308-330 | behind the checks every split names the backup of the metadata, every admin split one of its admins, and both positive thresholds are reached |
| `Restore.RecoverWallet` | internal/wallets/backup/backup.go:216-304 | succeeds exactly when both parts check and join, the admin keys parse and the public key is the recorded one; then all splits belong to the metadata's backup, thresholds are positive and reached, and the wallet has the metadata's members, marked restored, without settings |
| `EndToEnd.FlattenDistinct` | internal/wallets/backup/backup.go:181-210 | however ordered, different splits contribute different shares of one polynomial |
| `EndToEnd.FlattenCounts` | internal/wallets/backup/backup.go:334-350 | the number of collected shares is the delivered weight |
| `EndToEnd.PartRecovered` | internal/wallets/backup/backup.go:334-357 | with any threshold from the issued one on, a part is recovered from that much delivered weight on, and not below |
| `EndToEnd.RecoveryUnderMetadata` | internal/wallets/backup/backup.go:216-304 | under any metadata of the backup's id and field with thresholds not below the issued ones: the key with that metadata's members if the splits reach its thresholds, it names the owners of the admin splits and its admin keys parse, and nothing otherwise |
| `EndToEnd.RecoveryIff` | internal/wallets/backup/backup.go:216-304 | under the backup's own metadata: the backed-up wallet if both thresholds are reached and its admin keys parse, and nothing otherwise |
| `EndToEnd.DeliveredIsIssued` | internal/processors/instructions/walletutils/walletutil.go:150-187 | without forgeries among the messages, what they deliver was issued |
| `EndToEnd.RecoveredKeyIsOriginal` | internal/wallets/backup/backup.go:268-301 | under any metadata with a backup's id, whatever is recovered is the key backed up with the members of the metadata, and the wallet backed up if and only if these are its own |
| `EndToEnd.RestoreFromMessages` | internal/processors/instructions/walletutils/processor.go:223-237 | from any messages without forgeries, repeated, failing or foreign ones among them, the restore succeeds exactly when the delivered splits reach both thresholds and the admin keys parse, with the original key |
| `EndToEnd.WeightOneCountsHeads` | internal/wallets/backup/backup.go:82-86 | for admins the delivered weight is the number of admins whose split arrived |
| `EndToEnd.EveryAcceptedMessageCounts` | internal/processors/instructions/walletutils/walletutil.go:150-187 | every split of an acceptable message is among those delivered |
| `EndToEnd.IssuedSplitsAcceptable` | internal/processors/instructions/walletutils/walletutil.go:205-243 | one or two splits that the backup issued, in one message, are accepted |
| `EndToEnd.OwnersSuffice` | internal/wallets/backup/backup.go:146-213 | threshold-many admins and providers of threshold weight whose splits arrive in acceptable messages, alone or two to a message, suffice, whatever else is sent |
| `EndToEnd.OwnSplitsOnlyIssued` | internal/wallets/backup/backup.go:181-210 | the owners' own splits contain no forgery, so the assumption can be met |
| `EndToEnd.EveryoneIsEnough` | internal/wallets/backup/backup.go:146-213 | all owners together always reach both thresholds |
| `EndToEnd.BackupThenRestore` | internal/wallets/backup/backup.go:26-304 | with working signatures and draws a backupable wallet is backed up, signed so that the backup passes its check, and the restore returns it exactly when what is sent reaches both thresholds, in particular when enough owners send their splits among anything but forgeries |
| `Coalition.IssuedAreSeen` | internal/wallets/backup/backup.go:181-210 | the shares of issued splits lie on the polynomial drawn, at different indices, none of them zero |
| `Coalition.CoalitionLearnsNothing` | internal/wallets/backup/backup.go:77-91 | owners who pool splits of one part's threshold, or more, and miss the other's by one find every candidate key explained by exactly one outcome of all draws |
| `ProviderRestore.PubKeysToAddresses` | pkg/utils/crypto.go:112-123 | succeeds exactly when all keys parse, with their addresses in order |
| `ProviderRestore.CheckMembers` | internal/processors/instructions/walletutils/walletutil.go:91-110 | passes exactly for distinct admins that match the instruction's cosigners and threshold and for distinct, sufficient cosigners |
| `ProviderRestore.MembersAgreeIff` | internal/processors/instructions/walletutils/walletutil.go:91-110 | the member checks amount to at most 50 different admins and cosigners, admins' addresses and threshold being the instruction's cosigners and theirs |
| `ProviderRestore.KeyRestoreDataCheck` | internal/processors/instructions/walletutils/walletutil.go:46-119 | passes exactly for this machine, a supported algorithm, a 64-byte key, a backup at most one epoch ahead, the metadata of the id requested with agreeing members and a 64-bit nonce; gives metadata and nonce |
| `ProviderRestore.RestoreAuthorised` | internal/processors/instructions/walletutils/walletutil.go:107-110 | an accepted restore instruction was signed by at least the threshold of different admins that its own metadata names, who are its cosigners up to order, and by more provider weight than the policy of its epoch asks for |
| `ProviderRestore.CoveredHaveSigned` | internal/processors/instructions/walletutils/walletutil.go:107-110 | n of a given set of people, such as the backup's own admins, have signed if the metadata's threshold cannot be reached without n of them |
| `ProviderRestore.RecoverFromMessages` | internal/processors/instructions/walletutils/processor.go:226-237 | a recovered wallet comes from exactly the delivered splits, and is the key of any backup with that id under the metadata's members; of a backup's splits it succeeds exactly when they reach the thresholds of metadata not below its own |
| `ProviderRestore.RecoverForInstruction` | internal/processors/instructions/walletutils/processor.go:210-237 | whatever is recovered behind `preprocess` was asked for, in the message signed, by the threshold of the admins that the metadata names and by a provider quorum, hence by the backup's own admins where the metadata covers them; it is the key of the backup named, with the metadata's members; an instruction and request that pass succeed exactly when the splits reach the metadata's thresholds |
| `RestoreMetadata.AnyMembersPass` | internal/processors/instructions/walletutils/walletutil.go:46-119 | metadata with any members passes the check of an instruction that names its admins as cosigners |
| `RestoreMetadata.ChangedCosigners` | internal/wallets/backup/backup.go:268-290 | whatever cosigners the metadata names are restored |
| `RestoreMetadata.AddedAdmins` | internal/wallets/backup/backup.go:268-290 | so are admins that it adds |
| `RestoreMetadata.RaisedThreshold` | internal/wallets/backup/backup.go:238-290 | so is a raised admin threshold if as many splits arrived, and else nothing |
| `RestoreMetadata.RestoredAsBackedUpIff` | internal/wallets/backup/backup.go:216-304 | the wallet comes back as it was backed up if and only if the metadata repeats its members and thresholds and its provider threshold is reached |
| `RestoreMetadata.GuaranteedIff` | internal/processors/instructions/walletutils/walletutil.go:91-110 | n of the backup's own admins, or of any set, have signed every restore that passes if and only if the metadata cannot reach its threshold without n of them |
| `RestoreMetadata.SameAdminsCover` | internal/processors/instructions/walletutils/walletutil.go:91-110 | under the same admins and a threshold not below the backup's they have |
| `RestoreMetadata.OwnAdminNeedNotSign` | internal/processors/instructions/walletutils/walletutil.go:91-110 | with one admin added beside the only one, a restore of any epoch and message passes without the latter's signature |
| `Vrf.MulOnCurve` | pkg/wallets/vrf/vrf.go:105-122 | a curve point times a scalar in [1, n-1] is a curve point, never the neutral element |
| `Vrf.ScalarSubProduct` | pkg/wallets/vrf/vrf.go:430-442 | the reduced r with r + b·c = a modulo n |
| `Vrf.SkipsIff` | pkg/wallets/vrf/vrf.go:290-299 | an iteration is skipped exactly when its challenge is not zero and CGamma and V share their x-coordinate modulo p |
| `Vrf.VerifiableRandomness` | pkg/wallets/vrf/vrf.go:238-310 | succeeds exactly for a valid key and point when one of eight nonces yields a proof after nothing but skipped ones, and the proof comes from that nonce |
| `Vrf.ResponseNotZero` | pkg/wallets/vrf/vrf.go:261-310 | no returned proof has a zero response scalar |
| `Vrf.Completeness` | pkg/wallets/vrf/vrf.go:321-400 | every honest proof of a consistent key pair is accepted |
| `Vrf.ProveThenVerify` | pkg/wallets/vrf/vrf.go:238-400 | whatever the prover returns, the verifier accepts, and its Gamma is sk·h |
| `Vrf.AcceptedIff` | pkg/wallets/vrf/vrf.go:321-400 | acceptance is points on the curve, scalars in [1, n-1], ZInv in range, the three witness equations, the ZInv equation and the challenge hash, both ways |
| `Vrf.SpecialSoundness` | pkg/wallets/vrf/vrf.go:342-381 | two openings with different challenges force one x with pk = x·G and Gamma = x·h, and only one |
| `Vrf.WrongOutputOneChallenge` | pkg/wallets/vrf/vrf.go:321-400 | a Gamma other than sk·h passes for at most one challenge per commitment |
| `Vrf.IntegersModIsCurve` | pkg/wallets/vrf/vrf.go:105-162 | the assumed group laws can be met |
| `Lifecycle.StepKeepsStoreOk` | internal/wallets/storage.go:12-70 | live keys have records, both caps hold and wallets are filed under their own id after every step |
| `Lifecycle.StepFrame` | internal/processors/instructions/walletutils/processor.go:72-262 | a refused operation changes nothing, an effective one only its own key; records stay and nonces never fall |
| `Lifecycle.EffectiveOutcome` | internal/processors/instructions/walletutils/processor.go:72-262 | an effective operation finds a smaller nonce, leaves its own in an otherwise unchanged or fresh record, and brings or removes its wallet; a recorded id is not generated |
| `Lifecycle.GenerateEffectiveIff` | internal/processors/instructions/walletutils/processor.go:72-89 | exactly when a generation takes effect: in time, unrecorded, within all caps |
| `Lifecycle.DeleteEffectiveIff` | internal/processors/instructions/walletutils/processor.go:161-183 | exactly when a deletion takes effect: in time, recorded, with a higher nonce |
| `Lifecycle.RestoreEffectiveIff` | internal/processors/instructions/walletutils/processor.go:243-262 | exactly when a restore takes effect, in terms of records, live keys, caps and time |
| `Lifecycle.FirstNonceIsFree` | internal/processors/instructions/walletutils/processor.go:247-252 | without a record every nonce will do; after it only a deletion with a higher nonce can follow |
| `Lifecycle.RunsKeepStoreOk` | internal/wallets/storage.go:12-70 | the store invariant holds after every run |
| `Lifecycle.RecordsPersist` | internal/wallets/storage.go:62-70 | a record outlives deletion and its nonce never falls |
| `Lifecycle.NoncesStrictlyIncrease` | internal/processors/instructions/walletutils/processor.go:161-187 | in every run the nonces that take effect on a key strictly increase, and generation can only come first |
| `Lifecycle.ReplayRefused` | internal/processors/instructions/walletutils/processor.go:242-262 | whatever took effect once is refused without effect ever after |
| `Lifecycle.LatestDecides` | internal/processors/instructions/walletutils/processor.go:586-603 | a key is always as the latest effective operation on it left it |
| `Lifecycle.ConfirmedIff` | internal/processors/instructions/walletutils/processor.go:189-320 | after any run the End phase changes nothing and confirms exactly what still stands: a deletion if the last effective operation on the key was one with this nonce or a later one, a restore if it left the key live under this nonce, a generation if it left it live |
| `Lifecycle.LastIsConfirmed` | internal/processors/instructions/walletutils/processor.go:189-320 | whatever takes effect is confirmed until something else does |
| `Lifecycle.OtherTagRefused` | internal/processors/instructions/walletutils/processor.go:200-202 | deletions and restores answer to their two tags only |
| `WalletStorage.Wallet.Copy` | pkg/wallets/keys.go:78-107 | a new wallet with a new status of equal value |
| `WalletStorage.Storage.RepresentsOne` | internal/wallets/storage.go:12-19 | a heap state stands for one plain store only |
| `WalletStorage.Storage.NoStatusShared` | internal/wallets/storage.go:12-19 | no status object serves two keys |
| `WalletStorage.Storage.constructor` | internal/wallets/storage.go:22-27 | a new storage stands for the empty store |
| `WalletStorage.Storage.CheckStore` | internal/wallets/storage.go:33-54 | the checks pass exactly when the plain store accepts the wallet |
| `WalletStorage.Storage.Store` | internal/wallets/storage.go:32-60 | refines the plain store, shares the record's status object, adds only fresh objects, and changes nothing when it fails |
| `WalletStorage.Storage.Remove` | internal/wallets/storage.go:65-70 | the wallet goes, its record stays |
| `WalletStorage.Storage.Get` | internal/wallets/storage.go:77-85 | succeeds exactly for live keys, with fresh objects that carry the record's status |
| `WalletStorage.Storage.CheckNonce` | internal/wallets/storage.go:121-131 | passes exactly above the recorded nonce |
| `WalletStorage.Storage.Nonce` | internal/wallets/storage.go:136-143 | the recorded nonce, if there is a record |
| `WalletStorage.Storage.UpdateNonce` | internal/wallets/storage.go:148-152 | written through the record, seen through the live wallet, and nowhere else |
| `WalletStorage.Storage.KeyGenerate` | internal/processors/instructions/walletutils/processor.go:49-97 | refines the plain step in every phase and returns the wallet then live |
| `WalletStorage.Storage.KeyDelete` | internal/processors/instructions/walletutils/processor.go:137-205 | refines the plain step in every phase, touching only the wallet map and that key's status |
| `WalletStorage.Storage.StoreAndStamp` | internal/processors/instructions/walletutils/processor.go:258-262 | store and nonce update together, or nothing |
| `WalletStorage.Storage.KeyRestore` | internal/processors/instructions/walletutils/processor.go:238-325 | refines the plain step in every phase, for provider and direct restore alike |
| `WalletStorage.Storage.CheckRestore` | internal/processors/instructions/walletutils/processor.go:243-252 | passes exactly when the key is not live and the nonce is above any recorded one |
| `WalletStorage.Storage.ConfirmRestore` | internal/processors/instructions/walletutils/processor.go:306-320 | passes exactly when the key is live under the very nonce |
| `WalletStorage.Perform` | internal/processors/instructions/walletutils/processor.go:49-325 | any handler on the heap is the plain step, result and state |
| `WalletStorage.Execute` | internal/wallets/storage.go:12-60 | every run of handlers on a new storage ends where the plain steps end, within both caps |
| `Voters.CommonMember` | internal/policy/policy.go:144-153 | two groups weighing more than the whole together have a member in common |
| `Voters.WeightOfOne` | internal/policy/policy.go:144-153 | a single voter weighs its own weight |
| `Voters.StrangersWeighNothing` | internal/policy/policy.go:144-153 | who is no voter weighs nothing |
| `Voters.WeightOfSigners` | internal/policy/policy.go:144-153 | the uint16 loop is the exact weight; a repeated signer counts once |
| `Voters.HasDuplicateAddresses` | pkg/utils/crypto.go:165-174 | true exactly when two positions agree |
| `Quorum.SignaturesToSigners` | internal/processors/instructions/instructions.go:170-198 | the signers are distinct and are those the signatures recover to; an error has one of three causes |
| `Quorum.CheckCosigners` | pkg/processorutils/thresholds.go:54-67 | passes exactly from the threshold of signing cosigners on |
| `Quorum.CheckThresholds` | pkg/processorutils/thresholds.go:22-52 | passes exactly when cosigners are distinct and enough, provider weight exceeds the threshold and every signer is one or the other |
| `Quorum.AcceptedIff` | pkg/processorutils/thresholds.go:22-136 | exactly what is accepted: distinct cosigners, the threshold of different ones among the signers, no strangers, and weight above the policy's positive threshold, or above the exact share an FDC2 request names, from 4000 below 10000 bips, with more than half of the cosigners demanded below 5000 |
| `Quorum.CountIsCardinality` | pkg/processorutils/thresholds.go:54-67 | the cosigner count is the number of different cosigners that signed |
| `Quorum.ThresholdIsExact` | pkg/processorutils/thresholds.go:131-136 | exceeding the rounded threshold is exceeding the exact share |
| `Quorum.DoublingDoesNotWrap` | pkg/processorutils/thresholds.go:97-99 | after the cosigner check, doubling the cosigner threshold stays within uint64 |
| `Quorum.OneMajority` | pkg/processorutils/thresholds.go:80-109 | an accepted request with an override has a majority of weight or demands one of cosigners |
| `Quorum.QuorumsIntersect` | pkg/processorutils/thresholds.go:22-136 | two accepted signer sets of requests with overrides share a signer |
| `PolicyQuorums.VotersAreQuorum` | pkg/processorutils/thresholds.go:22-52 | voters alone are a quorum exactly when they outweigh a threshold that is not zero |
| `PolicyQuorums.IntersectingIff` | pkg/processorutils/thresholds.go:80-122 | any two quorums under a policy intersect if and only if its voters cannot be parted into two groups that both outweigh the threshold, or the threshold is zero |
| `PolicyQuorums.MajorityIff` | pkg/processorutils/thresholds.go:80-122 | quorums are majorities if and only if no group of voters outweighs the threshold without being one, or the threshold is zero |
| `PolicyQuorums.QuorumExistsIff` | pkg/processorutils/thresholds.go:111-122 | instructions can be accepted under a policy if and only if its threshold is positive and below the total weight |
| `PolicyQuorums.PolicyQuorumsCanBeDisjoint` | pkg/processorutils/thresholds.go:116-122 | for every threshold below half of every total there is a policy with two disjoint quorums, one of them no majority |
| `PolicyQuorums.ThresholdDecides` | pkg/processorutils/thresholds.go:116-122 | over all policies with a threshold and total, quorums intersect if and only if the threshold is zero or at least half of the total, and are majorities under the same condition |
| `Relay.SortByIndex` | internal/processors/instructions/fdcutils/fdcutils.go:51-63 | ordered by index and a permutation |
| `Relay.WeightAlongIncreasing` | internal/processors/instructions/fdcutils/fdcutils.go:37-63 | along strictly increasing indices of exactly the signing voters, weights add up to the signers' weight |
| `Relay.FiledUpTo` | internal/processors/instructions/fdcutils/fdcutils.go:37-50 | every entry is the signature of one signer under its own voter index, and every signing voter has one |
| `Relay.CosignersFiled` | internal/processors/instructions/fdcutils/fdcutils.go:37-50 | the second output is the signatures of exactly the signing cosigners, in order |
| `Relay.CheckResponseSignatures` | internal/processors/instructions/fdcutils/fdcutils.go:27-66 | succeeds exactly when every signature verifies; strictly increasing voter indices, each with that voter's own verified signature, one per signing provider, weighing what the threshold check counted; and the signing cosigners' signatures in order |
| `Relay.OrderUnique` | internal/processors/instructions/fdcutils/fdcutils.go:51-63 | only one such order exists, so the result does not depend on the sort |
| `Signing.CheckMatchingCosigners` | pkg/processorutils/processutils.go:145-159 | passes exactly on one-way containment, equal length and equal thresholds |
| `Signing.Pigeonhole` | pkg/processorutils/processutils.go:145-159 | for a list without duplicates that makes it a permutation |
| `Signing.MatchingIff` | pkg/processorutils/processutils.go:145-159 | for distinct cosigners, matching is being a permutation under the same threshold |
| `Signing.LoadPrivateKeys` | internal/processors/instructions/signutils/sigutils.go:22-48 | loads every requested key in order, exactly when all are live, usable and valid, or none |
| `Signing.CosignersSigned` | pkg/processorutils/thresholds.go:22-67 | if an accepted instruction's cosigners match a list of members, they are these up to order, and the members' threshold of different ones signed, with more provider weight than the policy asks for |
| `Signing.SigningAuthorised` | pkg/processorutils/processutils.go:145-159 | so it is for the cosigners of any key that an accepted instruction may use |
| `Instructions.KeyIdsAreNamed` | internal/processors/instructions/signutils/processor.go:75-81 | the filter keeps exactly the key ids named for this machine |
| `Instructions.KeyIdsInOrder` | internal/processors/instructions/signutils/processor.go:75-81 | pair by pair and in order |
| `Instructions.CollectKeyIds` | internal/processors/instructions/signutils/processor.go:75-81 | the loop computes that filter |
| `Instructions.LoadKeysForPayment` | internal/processors/instructions/signutils/processor.go:75-91 | succeeds exactly when the instruction passes and all keys that the signed message names for this machine, at least one, are live XRP keys with its cosigners and threshold; gives all of them in order, each agreed to by its own cosigners and the providers |
| `Instructions.OverrideReached` | pkg/processorutils/thresholds.go:131-136 | whoever passes an override weighs more than the exact share it names |
| `Instructions.ProveForRelay` | internal/processors/instructions/fdcutils/processor.go:30-56 | succeeds exactly when the instruction passes and all variable messages are their signers' signatures; what goes to the Relay weighs what passed the threshold, each voter's own signature in strictly increasing voter order, beside the cosigners' in order |
| `PolicyChain.StepKeepsInv` | internal/processors/direct/policyutils/processor.go:35-111 | each handler keeps: stored epochs without a gap from initial to active, each under its own epoch, a key for every active voter |
| `PolicyChain.ApprovesIff` | internal/processors/direct/policyutils/processor.go:279-292 | approval means that the signatures are, one by one, voters', who outweigh the threshold |
| `PolicyChain.InitializeOutcome` | internal/processors/direct/policyutils/processor.go:35-74 | an initialisation takes effect exactly on an empty store, in time, with the chain known and a matching key per voter, and leaves the policy initial, active and alone |
| `PolicyChain.KeysAreFiled` | internal/processors/direct/policyutils/processor.go:297-316 | the active keys are those the operation brought, each under its voter |
| `PolicyChain.UpdateOutcome` | internal/processors/direct/policyutils/processor.go:256-295 | an update takes effect exactly when it is the next epoch's, in time, with the chain known, its signatures are voters' of the active policy outweighing its threshold, and it has a matching key per voter; it then follows the active policy in the store |
| `PolicyChain.StepFrame` | internal/processors/direct/policyutils/processor.go:35-111 | a failing handler changes nothing, no stored policy is replaced, the active epoch advances by at most one |
| `PolicyChain.RunsKeepInv` | internal/policy/policy.go:15-54 | every reachable store satisfies the invariant |
| `PolicyChain.PoliciesPersist` | internal/policy/policy.go:102-110 | a policy stored at any point of a run is there unchanged at its end |
| `PolicyChain.ChainOfApproval` | internal/processors/direct/policyutils/processor.go:256-295 | in every run, for each stored policy but the initial one, an operation of the run asked for it while its predecessor was active, with signatures of that predecessor's voters outweighing its threshold |
| `PolicyChain.InitialWasInitialized` | internal/policy/policy.go:36-54 | the initial policy is the one an initialisation brought to an empty store |
| `PolicyChain.OneVoterInstalls` | internal/processors/direct/policyutils/processor.go:279-292 | one voter alone installs the next policy exactly when it outweighs the active threshold, so under a zero threshold every voter of positive weight does |
| `PolicyChain.EpochWindow` | internal/processors/instructions/utils.go:58-64 | an instruction's policy is found exactly for the active epoch and the one before it, and is the one of that epoch |
| `PolicyStorage.ProcessPolicyPublicKeys` | internal/processors/direct/policyutils/processor.go:297-316 | succeeds exactly with one matching key per voter in order |
| `PolicyStorage.Storage.constructor` | internal/policy/policy.go:27-34 | a new storage is empty |
| `PolicyStorage.Storage.SetActiveSigningPolicy` | internal/policy/policy.go:102-110 | adds and activates the policy once there is an initial one, else changes nothing |
| `PolicyStorage.Storage.SetActiveSigningPolicyPublicKeys` | internal/policy/policy.go:113-119 | replaces the keys once there is an initial policy |
| `PolicyStorage.Storage.SetInitialPolicy` | internal/policy/policy.go:36-54 | succeeds exactly on an uninitialised store with a non-zero hash; changes nothing on an initialised one |
| `PolicyStorage.Storage.DestroyState` | internal/policy/policy.go:156-163 | back to the empty store |
| `PolicyStorage.Storage.InitializePolicy` | internal/processors/direct/policyutils/processor.go:35-74 | the handler is the plain step, so failing on an initialised node changes nothing |
| `PolicyStorage.Storage.CheckSignatures` | internal/processors/direct/policyutils/processor.go:279-288 | succeeds exactly when every signature is a voter's, with the signers in order |
| `PolicyStorage.Storage.UpdatePolicy` | internal/processors/direct/policyutils/processor.go:78-111 | the handler is the plain step |
| `PolicyStorage.Storage.ActiveSigningPolicyPublicKeys` | internal/policy/policy.go:123-139 | the keys in voter order; in every reachable store it succeeds with matching keys, so its internal-error branch is dead |
| `PolicyStorage.Storage.Preprocess` | internal/processors/instructions/instructions.go:105-140 | passes exactly the well-formed instructions of the active epoch or the one before whose signatures are of distinct signers that meet every threshold under the policy of that epoch |
| `PolicyStorage.Execute` | internal/processors/direct/policyutils/processor.go:35-111 | every run of the two handlers on a new storage ends where the plain steps end |
| `CurrentPolicy.UnderActivePolicy` | internal/processors/instructions/instructions.go:105-140 | an instruction of the active epoch is judged by the active policy |
| `CurrentPolicy.PreviousEpochFails` | internal/processors/instructions/utils.go:58-64 | for every threshold and total of the active policy there is a run after which an instruction of the previous epoch passes with signers who weigh nothing under it |
| `CurrentPolicy.MinorityPasses` | pkg/processorutils/thresholds.go:116-122 | for every threshold below half there is a run after which an instruction of the active epoch passes without a majority |
| `CurrentPolicy.ThresholdGuaranteedIff` | internal/processors/instructions/instructions.go:105-140 | over all runs, passing means outweighing the active policy's threshold if and only if the instruction does not name the epoch before it |
| `CurrentPolicy.MajorityGuaranteedIff` | internal/processors/instructions/instructions.go:105-140 | over all runs, passing means a majority of the active weight if and only if, besides, the threshold is at least half of the total, rounded down, or zero |
| `MachinePaths.FindPath` | internal/processors/instructions/walletutils/processor.go:329-336 | true exactly when a single path has both ends |
| `MachinePaths.VerifyGovernanceSignatures` | internal/processors/direct/policyutils/processor.go:170-203 | passes exactly when all signatures are governance signers' and the different ones reach the threshold |
| `MachinePaths.VerifiedByThreshold` | internal/processors/direct/policyutils/processor.go:150-254 | a verified request itself carries signatures of the threshold of different governance signers over its list and nonce, directly or inside a call of the Safe that binds them |
| `MachinePaths.TooFewSignersRefused` | internal/processors/direct/policyutils/processor.go:150-254 | a request that carries fewer is refused |
| `MachinePaths.ListInstalledIff` | internal/processors/direct/policyutils/processor.go:121-254 | a list is installed if and only if there is governance, the nonce is higher, and the threshold of governance signers, and no stranger, signed it, or threshold-many signed the Safe's call that binds it |
| `MachinePaths.Node.constructor` | internal/node/node.go:469-487 | a new node has no list and no governance |
| `MachinePaths.Node.SetGovernance` | internal/node/node.go:320-359 | set once, exactly for a threshold between one and the number of signers, none of them zero, and safe and manager both given or neither |
| `MachinePaths.Node.SetMachinePathList` | internal/processors/direct/policyutils/processor.go:121-140 | replaces the list exactly for an authorised request with a higher nonce, and else changes nothing |
| `MachinePaths.Node.ValidateBackupRequest` | internal/processors/instructions/walletutils/processor.go:374-403 | passes exactly for this machine as source, the very list nonce and a path to the destination |
| `MachinePaths.Node.ValidateRestoreRequest` | internal/processors/instructions/walletutils/processor.go:344-366 | passes exactly for a backup of the source, a list nonce not above the node's and a path from the source |
| `DirectTransfer.EnvelopeRoundTrip` | pkg/wallets/backup/direct_backup.go:47-147 | what comes out of an envelope is what went in, and it comes out exactly for valid keys |
| `DirectTransfer.BackupSucceedsIff` | internal/processors/instructions/walletutils/processor.go:374-505 | exactly when a node makes an envelope, and exactly which |
| `DirectTransfer.RestoreSucceedsIff` | internal/processors/instructions/walletutils/processor.go:515-603 | exactly when a node takes an envelope: signature, id, recipient, epoch, members, key, path, list nonce and store |
| `DirectTransfer.RunsKeepInv` | internal/processors/instructions/walletutils/processor.go:411-658 | after every run a node without an installed list has none, one with a list has governance, and live wallets are well-formed under their own id |
| `DirectTransfer.SignedWasSent` | internal/processors/instructions/walletutils/processor.go:411-505 | whatever a node has signed it signed in an earlier step from a wallet it then held |
| `DirectTransfer.TransferIsFaithful` | internal/processors/instructions/walletutils/processor.go:515-603 | in every run a directly restored wallet is the one the source held when it made the envelope, and both nodes' lists authorised the pair at the time |
| `DirectTransfer.ListsNeverFall` | internal/node/node.go:469-487 | a step changes a node's list only by installing one with a higher nonce |
| `DirectTransfer.ListsMonotone` | internal/node/node.go:469-487 | over every run nonces never fall, equal nonces mean the same list, governance stays |
| `DirectTransfer.ListInForceAuthorised` | internal/processors/direct/policyutils/processor.go:121-254 | in every run the list a node has in force was asked of it in a step whose own request carried signatures of the threshold of its governance signers over exactly this list and nonce |
| `SignSlots.CapHolds` | internal/processors/instructions/signutils/processor.go:118-131 | under every interleaving the counter is live goroutines plus pending back-outs, and goroutines never exceed the cap |
| `SignSlots.AdmittedIff` | internal/processors/instructions/signutils/processor.go:118-123 | the exact condition for admission |
| `SignSlots.RefusedWithFreeSlot` | internal/processors/instructions/signutils/processor.go:118-123 | a run in which a caller is refused although a slot is free |

## Left out

- HTTP servers, queues, extension forwarding, the router and its timeouts, configuration: wiring and timing.
- Attestation tokens, node information, and `KeysInfo`, `GetWallets`, `InitialPolicyIDAndHash` and the like: they only read.
- Concrete ECDSA, ECIES, Keccak, curve and `bigmod` arithmetic and the primality of the two moduli: taken by contract.
- Constant-time behaviour and clearing of memory.
- ABI and JSON codecs, size limits, `validateInstructionData`, `CheckKeyGenerate` and `CheckAndAdapt`: single checks before the modelled steps. `PolicyStorage.Storage.Preprocess` takes the outcome of the first as an argument.
- The binding of signatures to a chain id, beyond whether the node knows one when it handles a policy.
- `HashToCurve`: the curve point of a nonce, or its absence, is an argument of prover and verifier; `RandomnessFromProof` is a hash of Gamma.
- Encoding and signing of the existence proof after a store commits: an error there is returned although the store has changed.
- `voteHash` and `rewardingData`, wallet `Sign` and `Decrypt`, XRPL transaction building.
- Text of the restore status: only the positions of failing messages are kept.
- Wrap-around of the 64-bit counter of sign goroutines, which the number of callers cannot reach.
- Slices inside wallets and path lists are values, so the aliasing modelled is that of wallet and status objects, not of slices.
- WalletStorage.Storage.KeyRestore: covers what the two restore handlers do to the store; what they recover is the subject of `EndToEnd` and `DirectTransfer`.
- EndToEnd.RecoveryUnderMetadata: for thresholds below the issued ones, or another field, only says through `EndToEnd.RecoveredKeyIsOriginal` that a success has the key; whether too few shares happen to interpolate to it depends on the draws (one short: `Shamir.OneShareShort`).
