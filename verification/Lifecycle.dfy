/** The life of a key record, on values: what the wallet handlers do to the store.
    internal/processors/instructions/walletutils/processor.go over
    internal/wallets/storage.go. Every handler holds the store's lock, so a run is
    a sequence of whole steps. */
module Lifecycle {
  import opened Wrappers
  import opened Field
  import opened Wallets

  const MAX_WALLETS := 200_000
  const MAX_PERMANENT := 1_000_000

  datatype Status = Status(nonce: Uint64, pausingNonce: Hash, statusCode: nat)

  const FRESH_STATUS := Status(0, ZERO_HASH, 0)

  /** A wallet as the store sees it: its id, the number of its members, and the
      rest, which the store only carries. */
  datatype Key<W> = Key(id: KeyIdPair, admins: nat, cosigners: nat, content: W)

  /** The permanent record of every key ever held, and the wallets now live. */
  datatype Store<W> = Store(records: map<KeyIdPair, Status>, live: map<KeyIdPair, Key<W>>)

  function EmptyStore<W>(): Store<W> {
    Store(map[], map[])
  }

  /** One key in the store: its record, and its wallet while it is live. */
  datatype Entry<W> = Entry(status: Status, wallet: Option<Key<W>>)

  function Lookup<W>(s: Store<W>, id: KeyIdPair): Option<Entry<W>> {
    if id !in s.records then None
    else Some(Entry(s.records[id], if id in s.live then Some(s.live[id]) else None))
  }

  ghost predicate StoreOk<W>(s: Store<W>) {
    && s.live.Keys <= s.records.Keys
    && |s.live| <= MAX_WALLETS
    && |s.records| <= MAX_PERMANENT
    && forall id :: id in s.live ==> s.live[id].id == id
  }

  datatype Tag = Threshold | End | Other

  /** An instruction that reached the store. `timely` says that its context has
      not expired at the last check before the state changes. */
  datatype Op<W> =
    | Generate(tag: Tag, wallet: Key<W>, timely: bool)
    | Delete(tag: Tag, id: KeyIdPair, nonce: Uint64, timely: bool)
    | Restore(tag: Tag, wallet: Key<W>, nonce: Uint64, timely: bool)

  function IdOf<W>(op: Op<W>): KeyIdPair {
    if op.Delete? then op.id else op.wallet.id
  }

  /** The nonce an operation leaves in the record. */
  function NonceOf<W>(op: Op<W>): Uint64 {
    if op.Generate? then 0 else op.nonce
  }

  /** Storage.Store of a wallet with status `status`: the copy takes over the record's
      status if there is one. */
  function Put<W>(s: Store<W>, w: Key<W>, status: Status): Option<Store<W>> {
    if !MemberCountsOk(w.admins, w.cosigners) then None
    else if w.id in s.live then None
    else if |s.live| >= MAX_WALLETS then None
    else if w.id in s.records then Some(s.(live := s.live[w.id := w]))
    else if |s.records| >= MAX_PERMANENT then None
    else Some(Store(s.records[w.id := status], s.live[w.id := w]))
  }

  /** Storage.CheckNonce */
  predicate NonceIsNew<W>(s: Store<W>, id: KeyIdPair, nonce: Uint64) {
    id in s.records && nonce > s.records[id].nonce
  }

  /** Storage.UpdateNonce */
  function WithNonce<W>(s: Store<W>, id: KeyIdPair, nonce: Uint64): Store<W> {
    if id in s.records then s.(records := s.records[id := s.records[id].(nonce := nonce)]) else s
  }

  /** Storage.Remove */
  function Without<W>(s: Store<W>, id: KeyIdPair): Store<W> {
    s.(live := s.live - {id})
  }

  /** One step: the store afterwards and whether the handler succeeded. */
  function Step<W>(s: Store<W>, op: Op<W>): (Store<W>, bool) {
    var id := IdOf(op);
    match op
    case Generate(tag, w, timely) =>
      if tag == Threshold then
        if id in s.records || !timely then (s, false) else
          var put := Put(s, w, FRESH_STATUS);
          if put.None? then (s, false) else (put.value, true)
      else (s, id in s.live)
    case Delete(tag, _, nonce, timely) =>
      if id !in s.records then (s, false)
      else if tag == Threshold then
        if !NonceIsNew(s, id, nonce) || !timely then (s, false)
        else (WithNonce(Without(s, id), id, nonce), true)
      else if tag == End then (s, id !in s.live && !NonceIsNew(s, id, nonce))
      else (s, false)
    case Restore(tag, w, nonce, timely) =>
      if tag == Threshold then
        if id in s.live || (id in s.records && !NonceIsNew(s, id, nonce)) || !timely then (s, false) else
          var put := Put(s, w, FRESH_STATUS);
          if put.None? then (s, false) else (WithNonce(put.value, id, nonce), true)
      else if tag == End then (s, id in s.live && id in s.records && s.records[id].nonce == nonce)
      else (s, false)
  }

  /** The operation takes effect in this state. */
  predicate Effective<W>(s: Store<W>, op: Op<W>) {
    op.tag == Threshold && Step(s, op).1
  }

  // ---- one step ---------------------------------------------------------------------

  lemma PutKeepsStoreOk<W>(s: Store<W>, w: Key<W>, status: Status)
    requires StoreOk(s) && Put(s, w, status).Some?
    ensures StoreOk(Put(s, w, status).value)
  {
  }

  lemma WithNonceKeepsStoreOk<W>(s: Store<W>, id: KeyIdPair, nonce: Uint64)
    requires StoreOk(s)
    ensures StoreOk(WithNonce(s, id, nonce))
  {
  }

  lemma WithoutKeepsStoreOk<W>(s: Store<W>, id: KeyIdPair)
    requires StoreOk(s)
    ensures StoreOk(Without(s, id))
  {
  }

  lemma StepKeepsStoreOk<W>(s: Store<W>, op: Op<W>)
    requires StoreOk(s)
    ensures StoreOk(Step(s, op).0)
  {
    if Effective(s, op) {
      match op
      case Generate(_, w, _) =>
        PutKeepsStoreOk(s, w, FRESH_STATUS);
      case Delete(_, id, nonce, _) =>
        WithoutKeepsStoreOk(s, id);
        WithNonceKeepsStoreOk(Without(s, id), id, nonce);
      case Restore(_, w, nonce, _) =>
        PutKeepsStoreOk(s, w, FRESH_STATUS);
        WithNonceKeepsStoreOk(Put(s, w, FRESH_STATUS).value, w.id, nonce);
    }
  }

  /** Only an effective operation changes anything, and only at the key it names.
      A record is never dropped and its nonce never falls. */
  lemma StepFrame<W>(s: Store<W>, op: Op<W>, id: KeyIdPair)
    ensures !Effective(s, op) ==> Step(s, op).0 == s
    ensures id != IdOf(op) ==> Lookup(Step(s, op).0, id) == Lookup(s, id)
    ensures id in s.records ==>
      id in Step(s, op).0.records && s.records[id].nonce <= Step(s, op).0.records[id].nonce
  {
  }

  /** An effective operation leaves its own nonce, above the one it found, and the
      wallet it brings. */
  lemma EffectiveOutcome<W>(s: Store<W>, op: Op<W>)
    requires Effective(s, op)
    ensures IdOf(op) in s.records ==> !op.Generate? && s.records[IdOf(op)].nonce < NonceOf(op)
    ensures LeftBy(Step(s, op).0, op)
    ensures Step(s, op).0.records[IdOf(op)] ==
      (if IdOf(op) in s.records then s.records[IdOf(op)] else Status(0, ZERO_HASH, 0)).(nonce := NonceOf(op))
  {
  }

  /** Exactly when a restore takes effect. Without a record no nonce is asked for. */
  lemma RestoreEffectiveIff<W>(s: Store<W>, w: Key<W>, nonce: Uint64, timely: bool)
    ensures Effective(s, Restore(Threshold, w, nonce, timely)) <==>
      && timely && w.admins <= 50 && w.cosigners <= 50 && w.id !in s.live && |s.live| < 200_000
      && if w.id in s.records then s.records[w.id].nonce < nonce else |s.records| < 1_000_000
  {
  }

  /** Exactly when a generation takes effect: never twice for one id. */
  lemma GenerateEffectiveIff<W>(s: Store<W>, w: Key<W>, timely: bool)
    requires StoreOk(s)
    ensures Effective(s, Generate(Threshold, w, timely)) <==>
      && timely && w.admins <= 50 && w.cosigners <= 50 && w.id !in s.records
      && |s.live| < 200_000 && |s.records| < 1_000_000
  {
  }

  /** Exactly when a deletion takes effect: for a recorded key, live or not, with a nonce
      above the recorded one. */
  lemma DeleteEffectiveIff<W>(s: Store<W>, id: KeyIdPair, nonce: Uint64, timely: bool)
    ensures Effective(s, Delete(Threshold, id, nonce, timely)) <==>
      timely && id in s.records && s.records[id].nonce < nonce
  {
  }

  /** A restore onto a store without a record takes effect for all nonces or for none,
      and from then on that first nonce is the one to exceed. */
  lemma FirstNonceIsFree<W>(s: Store<W>, w: Key<W>, first: Uint64, other: Uint64, next: Op<W>)
    requires w.id !in s.records && Effective(s, Restore(Threshold, w, first, true))
    ensures Effective(s, Restore(Threshold, w, other, true))
    ensures IdOf(next) == w.id && Effective(Step(s, Restore(Threshold, w, first, true)).0, next) ==>
      next.Delete? && next.nonce > first
  {
    EffectiveOutcome(s, Restore(Threshold, w, first, true));
  }

  /** The key is as `op` leaves it. */
  ghost predicate LeftBy<W>(s: Store<W>, op: Op<W>) {
    var id := IdOf(op);
    && id in s.records && s.records[id].nonce == NonceOf(op)
    && (if op.Delete? then id !in s.live else id in s.live && s.live[id] == op.wallet)
  }

  /** Nothing but an effective operation on the same key changes how it was left. */
  lemma LeftByFrame<W>(s: Store<W>, op: Op<W>, other: Op<W>)
    requires LeftBy(s, op)
    requires IdOf(other) == IdOf(op) ==> !Effective(s, other)
    ensures LeftBy(Step(s, other).0, op)
  {
  }

  // ---- whole runs ----------------------------------------------------------------------

  function After<W>(ops: seq<Op<W>>): Store<W> {
    if |ops| == 0 then EmptyStore() else Step(After(ops[..|ops| - 1]), ops[|ops| - 1]).0
  }

  /** The i-th operation of the run took effect. */
  predicate TookEffect<W>(ops: seq<Op<W>>, i: nat)
    requires i < |ops|
  {
    Effective(After(ops[..i]), ops[i])
  }

  lemma AfterStep<W>(ops: seq<Op<W>>, i: nat)
    requires i < |ops|
    ensures After(ops[..i + 1]) == Step(After(ops[..i]), ops[i]).0
  {
    assert ops[..i + 1][..i] == ops[..i];
  }

  lemma {:induction false} RunsKeepStoreOk<W>(ops: seq<Op<W>>)
    ensures StoreOk(After(ops))
  {
    if |ops| > 0 {
      RunsKeepStoreOk(ops[..|ops| - 1]);
      StepKeepsStoreOk(After(ops[..|ops| - 1]), ops[|ops| - 1]);
    }
  }

  lemma RecordStays<W>(ops: seq<Op<W>>, j: nat, id: KeyIdPair)
    requires j < |ops| && id in After(ops[..j]).records
    ensures id in After(ops[..j + 1]).records
    ensures After(ops[..j]).records[id].nonce <= After(ops[..j + 1]).records[id].nonce
  {
    AfterStep(ops, j);
    StepFrame(After(ops[..j]), ops[j], id);
  }

  /** Once written, a record stays and its nonce never falls. */
  lemma {:induction false} RecordsPersist<W>(ops: seq<Op<W>>, i: nat, j: nat, id: KeyIdPair)
    requires i <= j <= |ops| && id in After(ops[..i]).records
    ensures id in After(ops[..j]).records
    ensures After(ops[..i]).records[id].nonce <= After(ops[..j]).records[id].nonce
    decreases j
  {
    if i < j {
      RecordsPersist(ops, i, j - 1, id);
      RecordStays(ops, j - 1, id);
    }
  }

  /** In every run the nonces that take effect on one key strictly increase, and a
      key is only ever generated as the first thing that happens to it. */
  lemma NoncesStrictlyIncrease<W>(ops: seq<Op<W>>, i: nat, j: nat)
    requires i < j < |ops| && IdOf(ops[i]) == IdOf(ops[j])
    requires TookEffect(ops, i) && TookEffect(ops, j)
    ensures NonceOf(ops[i]) < NonceOf(ops[j])
    ensures !ops[j].Generate?
  {
    EffectiveOutcome(After(ops[..i]), ops[i]);
    AfterStep(ops, i);
    RecordsPersist(ops, i + 1, j, IdOf(ops[i]));
    EffectiveOutcome(After(ops[..j]), ops[j]);
  }

  /** Whatever has taken effect is refused, without effect, for ever after. */
  lemma ReplayRefused<W>(ops: seq<Op<W>>, i: nat)
    requires i < |ops| && TookEffect(ops, i)
    ensures Step(After(ops), ops[i]) == (After(ops), false)
  {
    EffectiveOutcome(After(ops[..i]), ops[i]);
    AfterStep(ops, i);
    RecordsPersist(ops, i + 1, |ops|, IdOf(ops[i]));
    assert ops[..|ops|] == ops;
  }

  /** The latest operation on its key to take effect in the run. */
  ghost predicate LatestEffective<W>(ops: seq<Op<W>>, i: nat) {
    && i < |ops| && TookEffect(ops, i)
    && forall j :: i < j < |ops| && IdOf(ops[j]) == IdOf(ops[i]) ==> !TookEffect(ops, j)
  }

  lemma StillLatest<W>(ops: seq<Op<W>>, i: nat, j: nat)
    requires LatestEffective(ops, i) && i < j < |ops|
    ensures IdOf(ops[j]) == IdOf(ops[i]) ==> !Effective(After(ops[..j]), ops[j])
  {
  }

  /** A key is always as the latest effective operation on it left it. */
  lemma {:induction false} LatestDecides<W>(ops: seq<Op<W>>, i: nat, n: nat)
    requires LatestEffective(ops, i) && i < n <= |ops|
    ensures LeftBy(After(ops[..n]), ops[i])
    decreases n
  {
    if n == i + 1 {
      AfterStep(ops, i);
      EffectiveOutcome(After(ops[..i]), ops[i]);
    } else {
      LatestDecides(ops, i, n - 1);
      StaysLeft(ops, i, n - 1);
    }
  }

  lemma StaysLeft<W>(ops: seq<Op<W>>, i: nat, j: nat)
    requires LatestEffective(ops, i) && i < j < |ops| && LeftBy(After(ops[..j]), ops[i])
    ensures LeftBy(After(ops[..j + 1]), ops[i])
  {
    AfterStep(ops, j);
    StillLatest(ops, i, j);
    LeftByFrame(After(ops[..j]), ops[i], ops[j]);
  }

  // ---- confirmation ------------------------------------------------------------------------

  /** Some operation on the key has taken effect, and the last one is the one given. */
  ghost predicate Last<W>(ops: seq<Op<W>>, id: KeyIdPair, i: nat) {
    LatestEffective(ops, i) && IdOf(ops[i]) == id
  }

  lemma LatestBefore<W>(ops: seq<Op<W>>, i: nat)
    requires |ops| > 0 && LatestEffective(ops[..|ops| - 1], i)
    requires IdOf(ops[|ops| - 1]) == IdOf(ops[i]) ==> !TookEffect(ops, |ops| - 1)
    ensures LatestEffective(ops, i)
  {
    forall j | 0 <= j < |ops| - 1 ensures TookEffect(ops[..|ops| - 1], j) == TookEffect(ops, j) {
      SameEffect(ops, j);
    }
  }

  lemma SameEffect<W>(ops: seq<Op<W>>, j: nat)
    requires j < |ops| - 1
    ensures TookEffect(ops[..|ops| - 1], j) == TookEffect(ops, j) && ops[..|ops| - 1][j] == ops[j]
  {
    assert ops[..|ops| - 1][..j] == ops[..j];
  }

  /** A recorded key has a last effective operation. */
  lemma {:induction false} RecordedHasLast<W>(ops: seq<Op<W>>, id: KeyIdPair) returns (i: nat)
    requires id in After(ops).records
    ensures Last(ops, id, i)
    decreases |ops|
  {
    var n := |ops| - 1;
    if IdOf(ops[n]) == id && TookEffect(ops, n) {
      i := n;
    } else {
      StepFrame(After(ops[..n]), ops[n], id);
      i := RecordedHasLast(ops[..n], id);
      LatestBefore(ops, i);
    }
  }

  /** Nothing has ever taken effect on a key without a record. */
  lemma LastIsRecorded<W>(ops: seq<Op<W>>, id: KeyIdPair, i: nat)
    requires Last(ops, id, i)
    ensures LeftBy(After(ops), ops[i])
  {
    LatestDecides(ops, i, |ops|);
    assert ops[..|ops|] == ops;
  }

  /** There is only one last operation. */
  lemma LastIsOne<W>(ops: seq<Op<W>>, id: KeyIdPair, i: nat, j: nat)
    requires Last(ops, id, i) && Last(ops, id, j)
    ensures i == j
  {
  }

  /** The End phase confirms, after any run, exactly what still stands. A deletion: the last
      operation to take effect on the key was a deletion, with this nonce or a later one.
      A restore: it brought the key to life under exactly this nonce. A generation: it
      left the key live. Nothing changes. */
  lemma ConfirmedIff<W>(ops: seq<Op<W>>, op: Op<W>)
    requires op.tag == End
    ensures Step(After(ops), op).0 == After(ops)
    ensures Step(After(ops), op).1 <==> exists i: nat :: Last(ops, IdOf(op), i) && Confirms(op, ops[i])
  {
    var id := IdOf(op);
    RunsKeepStoreOk(ops);
    if id in After(ops).records {
      var i := RecordedHasLast(ops, id);
      LastIsRecorded(ops, id, i);
      forall j | Last(ops, id, j) ensures j == i {
        LastIsOne(ops, id, i, j);
      }
    } else {
      forall i | Last(ops, id, i) ensures false {
        LastIsRecorded(ops, id, i);
      }
    }
  }

  /** The last effective operation on a key bears out what is to be confirmed. */
  ghost predicate Confirms<W>(op: Op<W>, last: Op<W>) {
    match op
    case Generate(_, _, _) => !last.Delete?
    case Delete(_, _, nonce, _) => last.Delete? && nonce <= last.nonce
    case Restore(_, _, nonce, _) => !last.Delete? && NonceOf(last) == nonce
  }

  function WithTag<W>(op: Op<W>, tag: Tag): Op<W> {
    match op
    case Generate(_, w, timely) => Generate(tag, w, timely)
    case Delete(_, id, nonce, timely) => Delete(tag, id, nonce, timely)
    case Restore(_, w, nonce, timely) => Restore(tag, w, nonce, timely)
  }

  /** Deletions and restores are carried out and confirmed under their two tags only. */
  lemma OtherTagRefused<W>(s: Store<W>, op: Op<W>)
    requires op.tag == Other && !op.Generate?
    ensures Step(s, op) == (s, false)
  {
  }

  /** So whatever takes effect is confirmed until something else does. */
  lemma LastIsConfirmed<W>(ops: seq<Op<W>>, i: nat)
    requires LatestEffective(ops, i)
    ensures Step(After(ops), WithTag(ops[i], End)) == (After(ops), true)
  {
    ConfirmedIff(ops, WithTag(ops[i], End));
    assert Last(ops, IdOf(ops[i]), i);
  }
}
