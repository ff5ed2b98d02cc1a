/** The shape of a wallet: pkg/wallets/keys.go and pkg/wallets/wallets.go. */
module Wallets {
  import opened Field

  /** A 32-byte value; the named constants below stand for different ones. */
  type Hash = nat
  type Address = nat
  type PublicKey = nat

  const ZERO_HASH: Hash := 0
  const EVM_SIGN_ALGO: Hash := 1
  const XRP_SIGN_ALGO: Hash := 2
  const VRF_ALGO: Hash := 3
  const XRP_TYPE: Hash := 4

  const MAX_ADMINS := 50
  const MAX_COSIGNERS := 50

  predicate SupportedAlgo(algo: Hash) {
    algo == EVM_SIGN_ALGO || algo == XRP_SIGN_ALGO || algo == VRF_ALGO
  }

  datatype KeyIdPair = KeyIdPair(walletId: Hash, keyId: Uint64)

  /** A wallet without its status. */
  datatype WalletInfo = WalletInfo(
    id: KeyIdPair,
    privateKey: seq<Byte>,
    keyType: Hash,
    signingAlgo: Hash,
    restored: bool,
    admins: seq<PublicKey>,
    adminsThreshold: Uint64,
    cosigners: seq<Address>,
    cosignersThreshold: Uint64,
    settingsVersion: Hash,
    settings: seq<Byte>)

  /** ValidateWalletMemberCounts */
  predicate MemberCountsOk(admins: nat, cosigners: nat) {
    admins <= MAX_ADMINS && cosigners <= MAX_COSIGNERS
  }

  /** How a restored wallet differs from the one that was backed up. */
  function AsRestored(w: WalletInfo): WalletInfo {
    w.(restored := true, settingsVersion := ZERO_HASH, settings := [])
  }

  /** What identifies one backup of one key. */
  datatype BackupId = BackupId(
    teeId: Address,
    key: KeyIdPair,
    publicKey: seq<Byte>,
    keyType: Hash,
    signingAlgo: Hash,
    rewardEpochId: nat,
    randomNonce: Hash)
}
