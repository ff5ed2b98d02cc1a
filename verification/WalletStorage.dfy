/** The wallet store on the heap: internal/wallets/storage.go and the handlers of
    internal/processors/instructions/walletutils/processor.go that change it. A
    live wallet and its permanent record point to one status object. */
module WalletStorage {
  import opened Wrappers
  import opened Field
  import opened Wallets
  import opened Lifecycle

  /** What a wallet carries besides its id and members; the store never looks inside. */
  type Content(!new)

  type WalletKey = Key<Content>

  type View = Store<Content>

  class WalletStatus {
    var nonce: Uint64
    var pausingNonce: Hash
    var statusCode: nat

    /** The key this status was made for; it keeps the records' objects apart. */
    ghost const owner: KeyIdPair

    constructor (s: Status, ghost owner: KeyIdPair)
      ensures Value() == s && this.owner == owner
    {
      this.owner := owner;
      nonce, pausingNonce, statusCode := s.nonce, s.pausingNonce, s.statusCode;
    }

    function Value(): Status
      reads this
    {
      Status(nonce, pausingNonce, statusCode)
    }
  }

  class Wallet {
    const info: WalletKey
    var status: WalletStatus

    constructor (info: WalletKey, status: WalletStatus)
      ensures this.info == info && this.status == status
    {
      this.info, this.status := info, status;
    }

    /** A deep copy: a new wallet with a new status of the same value. */
    method Copy() returns (w: Wallet)
      ensures fresh(w) && fresh(w.status)
      ensures w.info == info && w.status.Value() == status.Value()
      ensures w.status.owner == info.id
    {
      var s := new WalletStatus(status.Value(), info.id);
      w := new Wallet(info, s);
    }
  }

  class Storage {
    var wallets: map<KeyIdPair, Wallet>
    var permanent: map<KeyIdPair, WalletStatus>

    /** The wallet and status objects the store holds. */
    ghost var Repr: set<object>

    /** The permanent statuses are the records of `v`, each an object of its own key. */
    ghost predicate Records(v: View)
      reads `permanent, `Repr, Repr
    {
      && permanent.Keys == v.records.Keys
      && forall id :: id in permanent ==>
           && permanent[id] in Repr
           && permanent[id].owner == id
           && permanent[id].Value() == v.records[id]
    }

    /** The live wallets are those of `v`, filed under their own id, and each shares
        the very status object of its permanent record. */
    ghost predicate Wallets(v: View)
      reads this, Repr
    {
      && wallets.Keys == v.live.Keys
      && forall id :: id in wallets ==>
           && wallets[id] in Repr
           && id in permanent && wallets[id].status == permanent[id]
           && wallets[id].info == v.live[id]
           && wallets[id].info.id == id
    }

    /** The two maps and their shared objects stand for the plain store `v`. */
    ghost predicate Represents(v: View)
      reads this, Repr
    {
      Records(v) && Wallets(v)
    }

    lemma RepresentsOne(v: View, v': View)
      requires Represents(v) && Represents(v')
      ensures v == v'
    {
    }

    lemma Sizes(v: View)
      requires Represents(v)
      ensures |v.records| == |permanent| && |v.live| == |wallets|
    {
    }

    /** No status object serves two keys. */
    lemma NoStatusShared(v: View, a: KeyIdPair, b: KeyIdPair)
      requires Represents(v) && a in permanent && b in permanent && a != b
      ensures permanent[a] != permanent[b]
    {
    }

    constructor ()
      ensures Represents(EmptyStore()) && Repr == {}
    {
      wallets, permanent, Repr := map[], map[], {};
    }

    /** What the store holds once a status is filed: nothing new if there is a record. */
    ghost function With(id: KeyIdPair, status: WalletStatus): set<object>
      reads this
    {
      if id in permanent then {} else {status}
    }

    /** The permanent map's update at the end of Store. */
    method AddRecord(id: KeyIdPair, status: WalletStatus, ghost v: View)
      requires Represents(v)
      requires if id in permanent then status == permanent[id] else status.owner == id
      modifies `permanent, `Repr
      ensures Represents(v.(records := v.records[id := status.Value()]))
      ensures Repr == old(Repr) + old(With(id, status)) && id in permanent && permanent[id] == status
    {
      if id in permanent {
        assert v.records[id := status.Value()] == v.records;
      } else {
        permanent := permanent[id := status];
        Repr := Repr + {status};
      }
    }

    /** The wallets map's update at the end of Store. */
    method AddWallet(w: Wallet, ghost v: View)
      requires Represents(v) && w.info.id in permanent && w.status == permanent[w.info.id]
      modifies `wallets, `Repr
      ensures Represents(v.(live := v.live[w.info.id := w.info]))
      ensures Repr == old(Repr) + {w} && w.info.id in wallets && wallets[w.info.id] == w
    {
      Repr := Repr + {w};
      wallets := wallets[w.info.id := w];
    }

    /** Both updates. */
    method Insert(w: Wallet, ghost v: View)
      requires Represents(v)
      requires if w.info.id in permanent then w.status == permanent[w.info.id] else w.status.owner == w.info.id
      modifies this
      ensures Represents(v.(records := v.records[w.info.id := w.status.Value()], live := v.live[w.info.id := w.info]))
      ensures Repr == old(Repr) + old(With(w.info.id, w.status)) + {w}
      ensures w.info.id in wallets && wallets[w.info.id] == w
      ensures w.info.id in permanent && permanent[w.info.id] == w.status
    {
      AddRecord(w.info.id, w.status, v);
      AddWallet(w, v.(records := v.records[w.info.id := w.status.Value()]));
    }

    /** The checks of Store, in order. */
    method CheckStore(info: WalletKey, ghost status: Status, ghost v: View) returns (r: Result<()>)
      requires Represents(v)
      ensures r.Ok? <==> Put(v, info, status).Some?
    {
      Sizes(v);
      if !MemberCountsOk(info.admins, info.cosigners) {
        return Err("wallet key cannot have that many members");
      }
      if info.id in wallets {
        return Err("wallet with given walletID and keyID already exists");
      }
      if |wallets| >= MAX_WALLETS {
        return Err("maximum number of wallets reached");
      }
      if info.id !in permanent && |permanent| >= MAX_PERMANENT {
        return Err("maximum number of permanent wallet records reached");
      }
      return Ok(());
    }

    /** The copy that is to be filed, pointing to the record's status if there is one. */
    method CopyToFile(wallet: Wallet, ghost v: View) returns (copied: Wallet)
      requires Represents(v)
      ensures Represents(v) && fresh(copied) && copied.info == wallet.info
      ensures if wallet.info.id in permanent then copied.status == permanent[wallet.info.id]
              else fresh(copied.status) && copied.status.owner == wallet.info.id
                   && copied.status.Value() == wallet.status.Value()
    {
      copied := wallet.Copy();
      if wallet.info.id in permanent {
        copied.status := permanent[wallet.info.id];
      }
    }

    /** What Store does once its checks have passed. */
    method File(wallet: Wallet, ghost v: View)
      requires Represents(v)
      modifies this
      ensures Represents(Filed(v, wallet.info, old(wallet.status.Value()))) && fresh(Repr - old(Repr)) && wallet.info.id in permanent
      ensures if wallet.info.id in old(permanent) then permanent[wallet.info.id] == old(permanent)[wallet.info.id]
              else fresh(permanent[wallet.info.id])
    {
      var copied := CopyToFile(wallet, v);
      Insert(copied, v);
    }

    method Store(wallet: Wallet, ghost v: View) returns (r: Result<()>)
      requires Represents(v)
      modifies this
      ensures r.Ok? <==> Put(v, wallet.info, old(wallet.status.Value())).Some?
      ensures r.Ok? ==> Represents(Put(v, wallet.info, old(wallet.status.Value())).value)
      ensures r.Ok? ==> wallet.info.id in permanent && fresh(Repr - old(Repr))
      ensures r.Ok? ==> if wallet.info.id in old(permanent) then permanent[wallet.info.id] == old(permanent)[wallet.info.id]
                        else fresh(permanent[wallet.info.id])
      ensures r.Err? ==> unchanged(this)
    {
      r := CheckStore(wallet.info, wallet.status.Value(), v);
      if r.Ok? {
        File(wallet, v);
        PutValue(v, wallet.info, old(wallet.status.Value()));
      }
    }

    method Remove(id: KeyIdPair, ghost v: View) returns (existed: bool)
      requires Represents(v)
      modifies this`wallets
      ensures Represents(Without(v, id))
      ensures existed <==> id in v.live
    {
      existed := id in wallets;
      wallets := wallets - {id};
    }

    /** A copy that shares no object with the store. */
    method Get(id: KeyIdPair, ghost v: View) returns (r: Result<Wallet>)
      requires Represents(v)
      ensures r.Ok? <==> id in v.live
      ensures r.Ok? ==>
        && fresh(r.value) && fresh(r.value.status)
        && Lookup(v, id) == Some(Entry(r.value.status.Value(), Some(r.value.info)))
    {
      if id !in wallets {
        return Err("wallet non-existent");
      }
      var copied := wallets[id].Copy();
      return Ok(copied);
    }

    method CheckNonce(id: KeyIdPair, nonce: Uint64, ghost v: View) returns (r: Result<()>)
      requires Represents(v)
      ensures r.Ok? <==> NonceIsNew(v, id, nonce)
    {
      if id !in permanent {
        return Err("no permanent record of the wallet");
      }
      if nonce <= permanent[id].nonce {
        return Err("nonce too small");
      }
      return Ok(());
    }

    method Nonce(id: KeyIdPair, ghost v: View) returns (r: Result<Uint64>)
      requires Represents(v)
      ensures r.Ok? <==> id in v.records
      ensures r.Ok? ==> r.value == v.records[id].nonce
    {
      if id !in permanent {
        return Err("no wallet nonce");
      }
      return Ok(permanent[id].nonce);
    }

    /** Written through the record, seen through the live wallet. */
    method UpdateNonce(id: KeyIdPair, nonce: Uint64, ghost v: View)
      requires Represents(v)
      modifies if id in permanent then {permanent[id]} else {}
      ensures Represents(WithNonce(v, id, nonce))
      ensures id in wallets ==> wallets[id].status.nonce == nonce
    {
      if id in permanent {
        permanent[id].nonce := nonce;
      }
    }

    // ---- handlers -----------------------------------------------------------------------

    method KeyGenerate(tag: Tag, key: WalletKey, timely: bool, ghost v: View) returns (r: Result<WalletKey>)
      requires Represents(v)
      modifies this
      ensures Represents(Step(v, Generate(tag, key, timely)).0) && fresh(Repr - old(Repr))
      ensures r.Ok? <==> Step(v, Generate(tag, key, timely)).1
      ensures r.Ok? ==> Lookup(Step(v, Generate(tag, key, timely)).0, key.id).value.wallet == Some(r.value)
    {
      ghost var v' := v;
      if tag == Threshold {
        if key.id in permanent {
          return Err("a permanent record of the wallet already exists");
        }
        if !timely {
          return Err("context deadline exceeded");
        }
        var stored := StoreNew(key, v);
        if stored.Err? {
          return Err(stored.error);
        }
        v' := Put(v, key, FRESH_STATUS).value;
      }
      var got := Get(key.id, v');
      if got.Err? {
        return Err(got.error);
      }
      return Ok(got.value.info);
    }

    method KeyDelete(tag: Tag, id: KeyIdPair, nonce: Uint64, timely: bool, ghost v: View) returns (r: Result<()>)
      requires Represents(v)
      modifies `wallets, if id in permanent then {permanent[id]} else {}
      ensures Represents(Step(v, Delete(tag, id, nonce, timely)).0)
      ensures r.Ok? <==> Step(v, Delete(tag, id, nonce, timely)).1
    {
      if id !in permanent {
        return Err("wallet never existed");
      }
      var isNew := CheckNonce(id, nonce, v);
      match tag {
        case Threshold =>
          if isNew.Err? {
            return Err(isNew.error);
          }
          if !timely {
            return Err("context deadline exceeded");
          }
          var _ := Remove(id, v);
          UpdateNonce(id, nonce, Without(v, id));
        case End =>
          if id in wallets {
            return Err("wallet not deleted, still exists");
          }
          if isNew.Ok? {
            return Err("nonce not used");
          }
        case Other =>
          return Err("unexpected submission tag");
      }
      return Ok(());
    }

    /** Store a wallet made with a fresh status. */
    method StoreNew(info: WalletKey, ghost v: View) returns (r: Result<()>)
      requires Represents(v)
      modifies this
      ensures r.Ok? <==> Put(v, info, FRESH_STATUS).Some?
      ensures Represents(if r.Ok? then Put(v, info, FRESH_STATUS).value else v)
      ensures fresh(Repr - old(Repr))
      ensures r.Ok? ==> info.id in permanent && (permanent[info.id] in old(Repr) || fresh(permanent[info.id]))
    {
      var status := new WalletStatus(FRESH_STATUS, info.id);
      var wallet := new Wallet(info, status);
      r := Store(wallet, v);
    }

    /** Store the recovered wallet, then set the nonce of its record. */
    method StoreAndStamp(recovered: WalletKey, nonce: Uint64, ghost v: View) returns (r: Result<()>)
      requires Represents(v)
      modifies this, Repr
      ensures r.Ok? <==> Put(v, recovered, FRESH_STATUS).Some?
      ensures Represents(if r.Ok? then WithNonce(Put(v, recovered, FRESH_STATUS).value, recovered.id, nonce) else v)
      ensures fresh(Repr - old(Repr))
    {
      r := StoreNew(recovered, v);
      if r.Ok? {
        UpdateNonce(recovered.id, nonce, Put(v, recovered, FRESH_STATUS).value);
      }
    }

    /** The store part of KeyDataProviderRestore and KeyDirectRestore. */
    method KeyRestore(tag: Tag, recovered: WalletKey, nonce: Uint64, timely: bool, ghost v: View) returns (r: Result<()>)
      requires Represents(v)
      modifies this, Repr
      ensures Represents(Step(v, Restore(tag, recovered, nonce, timely)).0) && fresh(Repr - old(Repr))
      ensures r.Ok? <==> Step(v, Restore(tag, recovered, nonce, timely)).1
    {
      match tag {
        case Threshold =>
          r := CheckRestore(recovered.id, nonce, v);
          if r.Err? {
            return;
          }
          if !timely {
            return Err("context deadline exceeded");
          }
          r := StoreAndStamp(recovered, nonce, v);
        case End =>
          r := ConfirmRestore(recovered.id, nonce, v);
        case Other =>
          r := Err("unexpected submission tag");
      }
    }

    /** The checks of the Threshold phase: not live, and above any recorded nonce. */
    method CheckRestore(id: KeyIdPair, nonce: Uint64, ghost v: View) returns (r: Result<()>)
      requires Represents(v)
      ensures r.Ok? <==> id !in v.live && (id in v.records ==> NonceIsNew(v, id, nonce))
    {
      if id in wallets {
        return Err("wallet with given wallet-key id already exists");
      }
      if id in permanent {
        r := CheckNonce(id, nonce, v);
        return;
      }
      return Ok(());
    }

    /** The End phase: live, and not touched since. */
    method ConfirmRestore(id: KeyIdPair, nonce: Uint64, ghost v: View) returns (r: Result<()>)
      requires Represents(v)
      ensures r.Ok? <==> id in v.live && id in v.records && v.records[id].nonce == nonce
    {
      if id !in wallets {
        return Err("wallet does not exist");
      }
      var current := Nonce(id, v);
      if current.Err? || current.value != nonce {
        return Err("wallet nonce already changed");
      }
      return Ok(());
    }
  }

  /** The store with `w` live, under the status of its record if it has one. */
  ghost function Filed(v: View, w: WalletKey, status: Status): View {
    v.(records := v.records[w.id := if w.id in v.records then v.records[w.id] else status],
       live := v.live[w.id := w])
  }

  lemma PutValue(v: View, w: WalletKey, status: Status)
    requires Put(v, w, status).Some?
    ensures Put(v, w, status).value == Filed(v, w, status)
  {
  }

  /** Any run of the handlers on a new store ends where the plain steps end, within
      both caps. */
  method Execute(ops: seq<Op<Content>>) returns (s: Storage)
    ensures s.Represents(After(ops))
    ensures |s.wallets| <= 200_000 && |s.permanent| <= 1_000_000
  {
    s := new Storage();
    ghost var v := EmptyStore();
    for i := 0 to |ops|
      invariant fresh(s) && fresh(s.Repr) && s.Represents(v) && v == After(ops[..i])
    {
      var _ := Perform(s, ops[i], v);
      AfterStep(ops, i);
      v := Step(v, ops[i]).0;
    }
    assert ops[..|ops|] == ops;
    RunsKeepStoreOk(ops);
    s.Sizes(v);
  }

  method Perform(s: Storage, op: Op<Content>, ghost v: View) returns (ok: bool)
    requires s.Represents(v)
    modifies s, s.Repr
    ensures s.Represents(Step(v, op).0) && fresh(s.Repr - old(s.Repr))
    ensures ok == Step(v, op).1
  {
    match op {
      case Generate(tag, w, timely) =>
        var r := s.KeyGenerate(tag, w, timely, v);
        ok := r.Ok?;
      case Delete(tag, id, nonce, timely) =>
        var r := s.KeyDelete(tag, id, nonce, timely, v);
        ok := r.Ok?;
      case Restore(tag, w, nonce, timely) =>
        var r := s.KeyRestore(tag, w, nonce, timely, v);
        ok := r.Ok?;
    }
  }
}
