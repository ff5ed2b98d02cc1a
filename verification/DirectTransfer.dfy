/** Moving a key straight from one node to another: KeyDirectBackup and
    KeyDirectRestore in internal/processors/instructions/walletutils/processor.go
    and pkg/wallets/backup/direct_backup.go.

    Any number of nodes take steps in any order; whoever carries envelopes may
    replay, reorder and withhold them. Node signatures cannot be forged: an envelope
    verifies for a node of the system only if that node signed it. ECIES is ideal:
    a ciphertext is its recipient together with its plaintext. */
module DirectTransfer {
  import opened Wrappers
  import opened Field
  import opened Wallets
  import opened MachinePaths
  import L = Lifecycle

  datatype Payload = Payload(
    id: BackupId,
    sealedTo: Address,
    secret: seq<Byte>,
    admins: seq<PublicKey>,
    adminsThreshold: Uint64,
    cosigners: seq<Address>,
    cosignersThreshold: Uint64)

  /** The public key of a secret, and whether the secret is a valid scalar. */
  datatype Env = Env(pub: seq<Byte> -> seq<Byte>, isScalar: seq<Byte> -> bool, recover: Recovery)

  datatype NodeState = NodeState(lists: Lists, store: L.Store<WalletInfo>)

  const NEW_NODE := NodeState(NO_LISTS, L.Store(map[], map[]))

  /** The nodes, and every payload each of them has ever signed. */
  datatype System = System(nodes: map<Address, NodeState>, signed: set<(Address, Payload)>)

  datatype Step =
    | SetGovernance(node: Address, governance: Governance)
    | SetList(node: Address, request: ListRequest, timely: bool)
    | Local(node: Address, op: L.Op<WalletInfo>)
    | Backup(node: Address, tag: L.Tag, source: Address, listNonce: Uint64, destination: Address, key: KeyIdPair,
             rewardEpochId: nat, randomNonce: Hash, timely: bool)
    | Restore(node: Address, tag: L.Tag, backupId: BackupId, source: Address, listNonce: Uint64, nonce: Uint64,
              payload: Payload, foreignSigned: bool, rewardEpochId: nat, timely: bool)

  // ---- the envelope ----------------------------------------------------------------------

  function KeyOf(w: WalletInfo): L.Key<WalletInfo> {
    L.Key(w.id, |w.admins|, |w.cosigners|, w)
  }

  /** NewKeyDirectBackupPayload, with the private key sealed to the destination. */
  function PayloadOf(env: Env, w: WalletInfo, source: Address, destination: Address, epoch: nat, random: Hash): Payload {
    Payload(BackupId(source, w.id, env.pub(w.privateKey), w.keyType, w.signingAlgo, epoch, random),
            destination, w.privateKey, w.admins, w.adminsThreshold, w.cosigners, w.cosignersThreshold)
  }

  /** WalletFromKeyDirectBackupPayload */
  function WalletOf(env: Env, p: Payload): Result<WalletInfo> {
    if |p.secret| == 0 then Err("private key is empty")
    else if !env.isScalar(p.secret) then Err("invalid decrypted private key")
    else if env.pub(p.secret) != p.id.publicKey then Err("decrypted private key does not match BackupID.PublicKey")
    else Ok(WalletInfo(p.id.key, p.secret, p.id.keyType, p.id.signingAlgo, true, p.admins, p.adminsThreshold,
                       p.cosigners, p.cosignersThreshold, ZERO_HASH, []))
  }

  /** What comes out of an envelope is what went in, up to the restored flag and the
      settings, whenever it comes out at all. */
  lemma EnvelopeRoundTrip(env: Env, w: WalletInfo, source: Address, destination: Address, epoch: nat, random: Hash)
    ensures var r := WalletOf(env, PayloadOf(env, w, source, destination, epoch, random));
            && (r.Ok? <==> |w.privateKey| > 0 && env.isScalar(w.privateKey))
            && (r.Ok? ==> r.value == AsRestored(w))
  {
  }

  // ---- the steps ---------------------------------------------------------------------------

  predicate BackupRequestOk(s: System, step: Step)
    requires step.Backup? && step.node in s.nodes
  {
    MayBackUp(s.nodes[step.node].lists, step.node, step.source, step.listNonce, step.destination)
  }

  /** The request and the Threshold phase up to the signature. */
  predicate BackupOk(s: System, step: Step)
    requires step.Backup? && step.node in s.nodes
  {
    var n := s.nodes[step.node];
    && BackupRequestOk(s, step)
    && step.tag == L.Threshold
    && step.key in n.store.live
    && SupportedAlgo(n.store.live[step.key].content.signingAlgo)
    && step.timely
  }

  /** VerifySignature of the envelope against the named source. For a machine outside
      the system nothing is known of its signatures. */
  predicate EnvelopeVerifies(s: System, step: Step)
    requires step.Restore?
  {
    if step.source in s.nodes then (step.source, step.payload) in s.signed else step.foreignSigned
  }

  /** The checks of KeyDirectRestore before it turns to the store. */
  predicate RestoreOk(s: System, env: Env, step: Step)
    requires step.Restore? && step.node in s.nodes
  {
    var n, p := s.nodes[step.node], step.payload;
    && MayRestore(n.lists, step.node, step.backupId.teeId, step.source, step.listNonce)
    && EnvelopeVerifies(s, step)
    && MemberCountsOk(|p.admins|, |p.cosigners|)
    && p.id == step.backupId
    && (step.rewardEpochId == p.id.rewardEpochId || step.rewardEpochId == (p.id.rewardEpochId + 1) % UINT32_LIMIT)
    && p.sealedTo == step.node
    && WalletOf(env, p).Ok?
  }

  function WithNode(s: System, a: Address, n: NodeState): System {
    s.(nodes := s.nodes[a := n])
  }

  /** The system after a step, and whether the step succeeded. */
  function Next(s: System, env: Env, step: Step): (System, bool) {
    if step.node !in s.nodes then (s, false) else
      var n := s.nodes[step.node];
      match step
      case SetGovernance(_, g) =>
        var (lists, ok) := WithGovernance(n.lists, g);
        (WithNode(s, step.node, n.(lists := lists)), ok)
      case SetList(_, request, timely) =>
        var (lists, ok) := WithList(n.lists, env.recover, request, timely);
        (WithNode(s, step.node, n.(lists := lists)), ok)
      case Local(_, op) =>
        var (store, ok) := L.Step(n.store, op);
        (WithNode(s, step.node, n.(store := store)), ok)
      case Backup(_, _, _, _, destination, key, epoch, random, _) =>
        if !BackupOk(s, step) then (s, step.tag == L.End && BackupRequestOk(s, step) && key in n.store.live) else
          var p := PayloadOf(env, n.store.live[key].content, step.node, destination, epoch, random);
          (s.(signed := s.signed + {(step.node, p)}), true)
      case Restore(_, tag, _, _, _, nonce, payload, _, _, timely) =>
        if !RestoreOk(s, env, step) then (s, false) else
          var (store, ok) := L.Step(n.store, L.Restore(tag, KeyOf(WalletOf(env, payload).value), nonce, timely));
          (WithNode(s, step.node, n.(store := store)), ok)
  }

  /** Some path of the node's list leads from the one machine to the other. */
  ghost predicate Connected(l: Lists, source: Address, destination: Address) {
    exists i :: 0 <= i < |l.paths| && source in l.paths[i].sources && destination in l.paths[i].destinations
  }

  /** The envelope for a wallet: its key for the destination alone, its members and
      thresholds, under an id of this machine, epoch and nonce. */
  function Envelope(env: Env, w: WalletInfo, step: Step): Payload
    requires step.Backup?
  {
    Payload(
      id := BackupId(teeId := step.node, key := w.id, publicKey := env.pub(w.privateKey), keyType := w.keyType,
                     signingAlgo := w.signingAlgo, rewardEpochId := step.rewardEpochId, randomNonce := step.randomNonce),
      sealedTo := step.destination, secret := w.privateKey,
      admins := w.admins, adminsThreshold := w.adminsThreshold,
      cosigners := w.cosigners, cosignersThreshold := w.cosignersThreshold)
  }

  /** Exactly when a node makes an envelope: it is itself the source named, under the very
      list it has in force, which leads to the destination, and holds the key. */
  lemma BackupSucceedsIff(s: System, env: Env, step: Step)
    requires step.Backup? && step.tag == L.Threshold && step.node in s.nodes
    ensures var n, (t, ok) := s.nodes[step.node], Next(s, env, step);
            && (ok <==>
                 && step.source == step.node && step.listNonce == n.lists.nonce
                 && Connected(n.lists, step.node, step.destination)
                 && step.key in n.store.live && step.timely
                 && n.store.live[step.key].content.signingAlgo in {EVM_SIGN_ALGO, XRP_SIGN_ALGO, VRF_ALGO})
            && t.nodes == s.nodes
            && t.signed == if ok then s.signed + {(step.node, Envelope(env, n.store.live[step.key].content, step))} else s.signed
  {
  }

  /** Exactly when a node takes an envelope: the source named signed it for this backup, for
      this node, in this epoch or the one before, with at most 50 members of either kind and
      a key that fits; the list in force leads from the source here and is not older than
      the instruction's; and the store has room and has seen no such nonce. */
  lemma RestoreSucceedsIff(s: System, env: Env, step: Step)
    requires step.Restore? && step.tag == L.Threshold && step.node in s.nodes
    ensures var n, p := s.nodes[step.node], step.payload;
            Next(s, env, step).1 <==>
              && step.backupId.teeId == step.source && step.listNonce <= n.lists.nonce
              && Connected(n.lists, step.source, step.node)
              && (if step.source in s.nodes then (step.source, p) in s.signed else step.foreignSigned)
              && |p.admins| <= 50 && |p.cosigners| <= 50 && p.id == step.backupId && p.sealedTo == step.node
              && (step.rewardEpochId == p.id.rewardEpochId || step.rewardEpochId == (p.id.rewardEpochId + 1) % 0x1_0000_0000)
              && |p.secret| > 0 && env.isScalar(p.secret) && env.pub(p.secret) == p.id.publicKey
              && step.timely && p.id.key !in n.store.live && |n.store.live| < 200_000
              && (if p.id.key in n.store.records then n.store.records[p.id.key].nonce < step.nonce
                  else |n.store.records| < 1_000_000)
  {
    if RestoreOk(s, env, step) {
      L.RestoreEffectiveIff(s.nodes[step.node].store, KeyOf(WalletOf(env, step.payload).value), step.nonce, step.timely);
    }
  }

  /** Local wallet steps bring well-formed wallets. */
  ghost predicate StepOk(step: Step) {
    step.Local? && !step.op.Delete? ==> step.op.wallet == KeyOf(step.op.wallet.content)
  }

  function After(env: Env, start: set<Address>, steps: seq<Step>): System {
    if |steps| == 0 then System(map a | a in start :: NEW_NODE, {})
    else Next(After(env, start, steps[..|steps| - 1]), env, steps[|steps| - 1]).0
  }

  // ---- the invariant -----------------------------------------------------------------------

  ghost predicate NodeOk(n: NodeState) {
    && ListsOk(n.lists)
    && forall id :: id in n.store.live ==> n.store.live[id] == KeyOf(n.store.live[id].content) && n.store.live[id].id == id
  }

  ghost predicate Inv(s: System) {
    forall a :: a in s.nodes ==> NodeOk(s.nodes[a])
  }

  lemma StoreStep(n: NodeState, op: L.Op<WalletInfo>)
    requires NodeOk(n) && (!op.Delete? ==> op.wallet == KeyOf(op.wallet.content))
    ensures NodeOk(n.(store := L.Step(n.store, op).0))
  {
  }

  lemma NextKeepsInv(s: System, env: Env, step: Step)
    requires Inv(s) && StepOk(step)
    ensures Inv(Next(s, env, step).0)
    ensures Next(s, env, step).0.nodes.Keys == s.nodes.Keys
  {
    if step.node in s.nodes {
      var n := s.nodes[step.node];
      match step
      case SetGovernance(_, g) =>
        ListsStep(n.lists, env.recover, g, ListRequest([], 0, [], None), true);
      case SetList(_, request, timely) =>
        ListsStep(n.lists, env.recover, Governance([], 0, 0, 0), request, timely);
      case Local(_, op) =>
        StoreStep(n, op);
      case Backup(_, _, _, _, _, _, _, _, _) =>
      case Restore(_, tag, _, _, _, nonce, payload, _, _, timely) =>
        if RestoreOk(s, env, step) {
          StoreStep(n, L.Restore(tag, KeyOf(WalletOf(env, payload).value), nonce, timely));
        }
    }
  }

  lemma {:induction false} RunsKeepInv(env: Env, start: set<Address>, steps: seq<Step>)
    requires forall i :: 0 <= i < |steps| ==> StepOk(steps[i])
    ensures Inv(After(env, start, steps))
    ensures After(env, start, steps).nodes.Keys == start
  {
    if |steps| > 0 {
      RunsKeepInv(env, start, steps[..|steps| - 1]);
      NextKeepsInv(After(env, start, steps[..|steps| - 1]), env, steps[|steps| - 1]);
    }
  }

  // ---- whole runs ----------------------------------------------------------------------------

  /** At position i the node `source` sealed the wallet `w` it then held to `destination`. */
  ghost predicate SentAt(env: Env, start: set<Address>, steps: seq<Step>, i: nat, source: Address, p: Payload, w: WalletInfo)
    requires i < |steps|
  {
    var before, step := After(env, start, steps[..i]), steps[i];
    && step.Backup? && step.node == source && source in before.nodes && BackupOk(before, step)
    && step.key in before.nodes[source].store.live && before.nodes[source].store.live[step.key].content == w
    && p == PayloadOf(env, w, source, step.destination, step.rewardEpochId, step.randomNonce)
  }

  /** Whatever a node has signed, it signed in an earlier step, from a wallet it held. */
  lemma {:induction false} SignedWasSent(env: Env, start: set<Address>, steps: seq<Step>, n: nat, source: Address, p: Payload)
    returns (i: nat, w: WalletInfo)
    requires n <= |steps| && (source, p) in After(env, start, steps[..n]).signed
    ensures i < n && SentAt(env, start, steps, i, source, p, w)
  {
    assert n > 0;
    assert steps[..n][..n - 1] == steps[..n - 1];
    var s := After(env, start, steps[..n - 1]);
    if (source, p) in s.signed {
      i, w := SignedWasSent(env, start, steps, n - 1, source, p);
    } else {
      i, w := n - 1, s.nodes[source].store.live[steps[n - 1].key].content;
    }
  }

  /** A direct restore took effect at position j. */
  ghost predicate RestoredAt(env: Env, start: set<Address>, steps: seq<Step>, j: nat) {
    && j < |steps| && steps[j].Restore? && steps[j].tag == L.Threshold
    && Next(After(env, start, steps[..j]), env, steps[j]).1
  }

  /** In every run, a wallet that a node installs by direct restore from another node of
      the system is the wallet that node held when it produced the envelope: same
      private key, admins, cosigners and thresholds. Both ends were authorised, each by
      the list it had in force. */
  lemma TransferIsFaithful(env: Env, start: set<Address>, steps: seq<Step>, j: nat) returns (i: nat, w: WalletInfo)
    requires (forall k :: 0 <= k < |steps| ==> StepOk(steps[k])) && RestoredAt(env, start, steps, j)
    requires steps[j].source in start
    ensures i < j && SentAt(env, start, steps, i, steps[j].source, steps[j].payload, w)
    ensures var after := After(env, start, steps[..j + 1]);
            && steps[j].node in after.nodes && w.id in after.nodes[steps[j].node].store.live
            && after.nodes[steps[j].node].store.live[w.id].content == AsRestored(w)
    ensures var here := After(env, start, steps[..j]);
            steps[j].node in here.nodes && PathAuthorizes(here.nodes[steps[j].node].lists.paths, steps[j].source, steps[j].node)
    ensures var there := After(env, start, steps[..i]);
            steps[j].source in there.nodes &&
            PathAuthorizes(there.nodes[steps[j].source].lists.paths, steps[j].source, steps[j].node)
  {
    var s, step := After(env, start, steps[..j]), steps[j];
    RunsKeepInv(env, start, steps[..j]);
    i, w := SignedWasSent(env, start, steps, j, step.source, step.payload);
    EnvelopeRoundTrip(env, w, step.source, step.payload.sealedTo, step.payload.id.rewardEpochId, step.payload.id.randomNonce);
    InstalledWallet(s, env, step);
    assert steps[..j + 1][..j] == steps[..j];
  }

  /** An effective restore leaves the wallet of its payload live at the node. */
  lemma InstalledWallet(s: System, env: Env, step: Step)
    requires step.Restore? && step.tag == L.Threshold && Next(s, env, step).1
    ensures step.node in s.nodes && RestoreOk(s, env, step)
    ensures var w, t := WalletOf(env, step.payload).value, Next(s, env, step).0;
            step.node in t.nodes && w.id in t.nodes[step.node].store.live && t.nodes[step.node].store.live[w.id].content == w
  {
  }

  // ---- the lists over whole runs ----------------------------------------------------------------

  lemma ListsNeverFall(s: System, env: Env, step: Step, a: Address)
    requires Inv(s) && StepOk(step) && a in s.nodes
    ensures a in Next(s, env, step).0.nodes
    ensures var l, m := s.nodes[a].lists, Next(s, env, step).0.nodes[a].lists;
            && (m == l || (step.node == a && Next(s, env, step).1 && !step.Local? && !step.Backup? && !step.Restore?))
            && (l.governance.Some? ==> m.governance == l.governance)
            && (m.paths != l.paths || m.nonce != l.nonce ==> l.nonce < m.nonce)
  {
  }

  /** In every run a node's list nonce never falls, equal nonces mean the same list,
      and governance, once set, stays. */
  lemma {:induction false} ListsMonotone(env: Env, start: set<Address>, steps: seq<Step>, i: nat, j: nat, a: Address)
    requires i <= j <= |steps| && a in start && forall k :: 0 <= k < |steps| ==> StepOk(steps[k])
    ensures a in After(env, start, steps[..i]).nodes && a in After(env, start, steps[..j]).nodes
    ensures Advances(After(env, start, steps[..i]).nodes[a].lists, After(env, start, steps[..j]).nodes[a].lists)
    decreases j
  {
    if i == j {
      RunsKeepInv(env, start, steps[..i]);
    } else {
      ListsMonotone(env, start, steps, i, j - 1, a);
      LastStepAdvances(env, start, steps[..j], a);
      assert steps[..j][..j - 1] == steps[..j - 1];
    }
  }

  lemma LastStepAdvances(env: Env, start: set<Address>, steps: seq<Step>, a: Address)
    requires |steps| > 0 && a in start && forall k :: 0 <= k < |steps| ==> StepOk(steps[k])
    ensures var s, t := After(env, start, steps[..|steps| - 1]), After(env, start, steps);
            a in s.nodes && a in t.nodes && Advances(s.nodes[a].lists, t.nodes[a].lists)
  {
  }

  /** From l to m the nonce has not fallen, an equal nonce means an equal list, and
      governance, once set, is the same. */
  ghost predicate Advances(l: Lists, m: Lists) {
    && l.nonce <= m.nonce
    && (l.nonce == m.nonce ==> l.paths == m.paths)
    && (l.governance.Some? ==> m.governance == l.governance)
  }

  /** At position k the list and nonce of `l` were requested of node `a`, under the
      governance of `l`, with signatures that verify. */
  ghost predicate InstalledAt(env: Env, start: set<Address>, steps: seq<Step>, k: nat, a: Address, l: Lists) {
    && k < |steps| && steps[k].SetList? && steps[k].node == a
    && steps[k].request.paths == l.paths && steps[k].request.nonce == l.nonce
    && a in After(env, start, steps[..k]).nodes && After(env, start, steps[..k]).nodes[a].lists.governance == l.governance
    && l.governance.Some? && Verifies(l.governance.value, env.recover, steps[k].request)
  }

  lemma InstalledEarlier(env: Env, start: set<Address>, steps: seq<Step>, k: nat, a: Address, l: Lists)
    requires |steps| > 0 && InstalledAt(env, start, steps[..|steps| - 1], k, a, l)
    ensures InstalledAt(env, start, steps, k, a, l)
  {
    assert steps[..|steps| - 1][..k] == steps[..k];
  }

  /** In every run, the list a node has in force was asked of it in an earlier step. */
  lemma {:induction false} ListInForceInstalled(env: Env, start: set<Address>, steps: seq<Step>, a: Address) returns (k: nat)
    requires a in start && forall i :: 0 <= i < |steps| ==> StepOk(steps[i])
    requires a in After(env, start, steps).nodes && After(env, start, steps).nodes[a].lists.nonce > 0
    ensures InstalledAt(env, start, steps, k, a, After(env, start, steps).nodes[a].lists)
    decreases |steps|
  {
    assert |steps| > 0;
    var n := |steps| - 1;
    var before, step := steps[..n], steps[n];
    RunsKeepInv(env, start, before);
    var l, m := After(env, start, before).nodes[a].lists, After(env, start, steps).nodes[a].lists;
    ListsNeverFall(After(env, start, before), env, step, a);
    if m.paths == l.paths && m.nonce == l.nonce {
      k := ListInForceInstalled(env, start, before, a);
      InstalledEarlier(env, start, steps, k, a, l);
    } else {
      k := n;
    }
  }

  /** In every run, the list a node has in force was asked of it in a step whose own
      request carried the signatures of the threshold of the node's governance signers
      over exactly this list and nonce. */
  lemma ListInForceAuthorised(env: Env, start: set<Address>, steps: seq<Step>, a: Address)
    returns (k: nat, who: set<Address>)
    requires a in start && forall i :: 0 <= i < |steps| ==> StepOk(steps[i])
    requires a in After(env, start, steps).nodes && After(env, start, steps).nodes[a].lists.nonce > 0
    ensures var l := After(env, start, steps).nodes[a].lists;
            && InstalledAt(env, start, steps, k, a, l)
            && |who| >= l.governance.value.threshold
            && forall x :: x in who ==>
                 x in l.governance.value.signers && CarriesSignatureOf(l.governance.value, env.recover, steps[k].request, x)
  {
    k := ListInForceInstalled(env, start, steps, a);
    who := VerifiedByThreshold(After(env, start, steps).nodes[a].lists.governance.value, env.recover, steps[k].request);
  }
}
