/** The governance-approved list of machine paths: internal/node/node.go and
    SetMachinePathList in internal/processors/direct/policyutils/processor.go. */
module MachinePaths {
  import opened Wrappers
  import opened Field
  import opened Wallets
  import opened Sets

  const ZERO_ADDRESS: Address := 0

  datatype Path = Path(sources: seq<Address>, destinations: seq<Address>)

  datatype Governance = Governance(signers: seq<Address>, threshold: Uint64, safe: Address, teeManager: Address)

  /** A transaction of the governance Safe: its target, whether it is a plain call,
      the list that its calldata binds, and the Safe's own nonce. */
  datatype SafeTx = SafeTx(to: Address, isCall: bool, listNonce: Uint64, paths: seq<Path>, safeNonce: Uint64)

  datatype Approval = Approval(tx: SafeTx, signatures: seq<nat>)

  datatype ListRequest = ListRequest(paths: seq<Path>, nonce: Uint64, signatures: seq<nat>, safeApproval: Option<Approval>)

  /** Whom a signature recovers to: one over the hash of a list and its nonce, and one
      over the hash of a transaction of a Safe. */
  datatype Recovery = Recovery(
    list: (Uint64, seq<Path>, nat) -> Option<Address>,
    safe: (Address, SafeTx, nat) -> Option<Address>)

  // ---- authorisation ---------------------------------------------------------------------

  /** A single path has the source on its one side and the destination on its other. */
  predicate PathAuthorizes(paths: seq<Path>, source: Address, destination: Address) {
    exists i :: 0 <= i < |paths| && source in paths[i].sources && destination in paths[i].destinations
  }

  method FindPath(paths: seq<Path>, source: Address, destination: Address) returns (ok: bool)
    ensures ok == PathAuthorizes(paths, source, destination)
  {
    for i := 0 to |paths|
      invariant forall k :: 0 <= k < i ==> !(source in paths[k].sources && destination in paths[k].destinations)
    {
      if source in paths[i].sources && destination in paths[i].destinations {
        return true;
      }
    }
    return false;
  }

  predicate GovernanceOk(g: Governance) {
    && 1 <= g.threshold <= |g.signers|
    && ZERO_ADDRESS !in g.signers
    && (g.safe == ZERO_ADDRESS <==> g.teeManager == ZERO_ADDRESS)
  }

  // ---- verifying a request ------------------------------------------------------------------

  /** Whom the first n signatures of the request recover to. */
  function ListSigners(rec: Recovery, req: ListRequest, n: nat): set<Address>
    requires n <= |req.signatures|
  {
    set i | 0 <= i < n && rec.list(req.nonce, req.paths, req.signatures[i]).Some?
          :: rec.list(req.nonce, req.paths, req.signatures[i]).value
  }

  predicate IsGovernanceSignature(g: Governance, rec: Recovery, req: ListRequest, sig: nat) {
    var signer := rec.list(req.nonce, req.paths, sig);
    signer.Some? && signer.value in g.signers
  }

  /** All signatures of the request are governance signers', over this list and nonce,
      and at least the threshold of distinct ones. */
  predicate SignedDirectly(g: Governance, rec: Recovery, req: ListRequest) {
    && (forall i :: 0 <= i < |req.signatures| ==> IsGovernanceSignature(g, rec, req, req.signatures[i]))
    && |ListSigners(rec, req, |req.signatures|)| >= g.threshold
  }

  /** The governance signers whose signature over the transaction the approval carries. */
  function SafeSigners(g: Governance, rec: Recovery, a: Approval): set<Address> {
    set i | 0 <= i < |a.signatures| && rec.safe(g.safe, a.tx, a.signatures[i]).Some?
            && rec.safe(g.safe, a.tx, a.signatures[i]).value in g.signers
          :: rec.safe(g.safe, a.tx, a.signatures[i]).value
  }

  /** verifySafeApproval: a call of the Safe on the manager contract that binds exactly
      this list, signed by at least the threshold of governance signers. */
  predicate SafeApproves(g: Governance, rec: Recovery, a: Approval, req: ListRequest) {
    && g.safe != ZERO_ADDRESS
    && a.tx.to == g.teeManager && a.tx.isCall && a.tx.listNonce == req.nonce && a.tx.paths == req.paths
    && |SafeSigners(g, rec, a)| >= g.threshold
  }

  /** What verifyGovernanceAuthorization accepts. */
  predicate Verifies(g: Governance, rec: Recovery, req: ListRequest) {
    || SignedDirectly(g, rec, req)
    || (req.safeApproval.Some? && SafeApproves(g, rec, req.safeApproval.value, req))
  }

  method VerifyGovernanceSignatures(g: Governance, rec: Recovery, req: ListRequest) returns (ok: bool)
    ensures ok == SignedDirectly(g, rec, req)
  {
    var seen: set<Address> := {};
    for i := 0 to |req.signatures|
      invariant forall k :: 0 <= k < i ==> IsGovernanceSignature(g, rec, req, req.signatures[k])
      invariant seen == ListSigners(rec, req, i)
    {
      if !IsGovernanceSignature(g, rec, req, req.signatures[i]) {
        return false;
      }
      var signer := rec.list(req.nonce, req.paths, req.signatures[i]).value;
      assert ListSigners(rec, req, i + 1) == ListSigners(rec, req, i) + {signer};
      seen := seen + {signer};
    }
    return |seen| >= g.threshold;
  }

  /** The request itself carries a signature of `a` that covers its list and nonce,
      directly or inside a call of the Safe that binds them. */
  ghost predicate CarriesSignatureOf(g: Governance, rec: Recovery, req: ListRequest, a: Address) {
    || (exists i :: 0 <= i < |req.signatures| && rec.list(req.nonce, req.paths, req.signatures[i]) == Some(a))
    || (&& req.safeApproval.Some? && g.safe != ZERO_ADDRESS
        && var ap := req.safeApproval.value;
           && ap.tx.to == g.teeManager && ap.tx.isCall && ap.tx.listNonce == req.nonce && ap.tx.paths == req.paths
           && exists i :: 0 <= i < |ap.signatures| && rec.safe(g.safe, ap.tx, ap.signatures[i]) == Some(a))
  }

  /** Whatever verifies carries the signatures of the threshold of governance signers. */
  lemma VerifiedByThreshold(g: Governance, rec: Recovery, req: ListRequest) returns (who: set<Address>)
    requires Verifies(g, rec, req)
    ensures |who| >= g.threshold
    ensures forall a :: a in who ==> a in g.signers && CarriesSignatureOf(g, rec, req, a)
  {
    if SignedDirectly(g, rec, req) {
      who := ListSigners(rec, req, |req.signatures|);
      forall a | a in who ensures a in g.signers && CarriesSignatureOf(g, rec, req, a) {
        var i :| 0 <= i < |req.signatures| && rec.list(req.nonce, req.paths, req.signatures[i]) == Some(a);
        assert IsGovernanceSignature(g, rec, req, req.signatures[i]);
      }
    } else {
      who := SafeSigners(g, rec, req.safeApproval.value);
    }
  }

  /** All these people have a signature in the request itself, over its list and nonce. */
  ghost predicate SignedByAll(rec: Recovery, req: ListRequest, who: set<Address>) {
    forall a :: a in who ==> exists i :: 0 <= i < |req.signatures| && rec.list(req.nonce, req.paths, req.signatures[i]) == Some(a)
  }

  /** All these people have a signature in the approval, over the Safe's transaction. */
  ghost predicate SafeSignedByAll(g: Governance, rec: Recovery, ap: Approval, who: set<Address>) {
    forall a :: a in who ==> exists i :: 0 <= i < |ap.signatures| && rec.safe(g.safe, ap.tx, ap.signatures[i]) == Some(a)
  }

  /** Threshold-many people signed the list, and nobody but governance signers did. */
  ghost predicate DirectlyAuthorised(g: Governance, rec: Recovery, req: ListRequest) {
    && (forall sig :: sig in req.signatures ==>
          exists k :: 0 <= k < |g.signers| && rec.list(req.nonce, req.paths, sig) == Some(g.signers[k]))
    && exists who: set<Address> :: |who| >= g.threshold && SignedByAll(rec, req, who)
  }

  /** Threshold-many governance signers signed a plain call of the Safe on the manager that
      binds this list and nonce. */
  ghost predicate SafeAuthorised(g: Governance, rec: Recovery, req: ListRequest) {
    && req.safeApproval.Some? && g.safe != ZERO_ADDRESS
    && var ap := req.safeApproval.value;
       && ap.tx.to == g.teeManager && ap.tx.isCall && ap.tx.listNonce == req.nonce && ap.tx.paths == req.paths
       && exists who: set<Address> ::
            |who| >= g.threshold && (forall a :: a in who ==> a in g.signers) && SafeSignedByAll(g, rec, ap, who)
  }

  lemma DirectlyIff(g: Governance, rec: Recovery, req: ListRequest)
    ensures SignedDirectly(g, rec, req) <==> DirectlyAuthorised(g, rec, req)
  {
    var all := ListSigners(rec, req, |req.signatures|);
    assert SignedByAll(rec, req, all);
    forall who: set<Address> | SignedByAll(rec, req, who) ensures |who| <= |all| {
      SubsetSize(who, all);
    }
    forall i | 0 <= i < |req.signatures| ensures req.signatures[i] in req.signatures {
    }
    assert (forall i :: 0 <= i < |req.signatures| ==> IsGovernanceSignature(g, rec, req, req.signatures[i])) <==>
      forall sig :: sig in req.signatures ==> IsGovernanceSignature(g, rec, req, sig);
    forall sig ensures IsGovernanceSignature(g, rec, req, sig) <==>
                       exists k :: 0 <= k < |g.signers| && rec.list(req.nonce, req.paths, sig) == Some(g.signers[k]) {
    }
  }

  lemma SafeIff(g: Governance, rec: Recovery, req: ListRequest)
    requires req.safeApproval.Some?
    ensures SafeApproves(g, rec, req.safeApproval.value, req) <==> SafeAuthorised(g, rec, req)
  {
    var ap := req.safeApproval.value;
    var all := SafeSigners(g, rec, ap);
    assert SafeSignedByAll(g, rec, ap, all);
    forall who: set<Address> | (forall a :: a in who ==> a in g.signers) && SafeSignedByAll(g, rec, ap, who)
      ensures |who| <= |all|
    {
      SubsetSize(who, all);
    }
  }

  /** Exactly when a list is installed: on a node with governance, for a nonce above the
      current one, with the authorisation of the threshold of governance signers. */
  lemma ListInstalledIff(l: Lists, rec: Recovery, req: ListRequest, timely: bool)
    ensures WithList(l, rec, req, timely).1 <==>
      && l.governance.Some? && timely && l.nonce < req.nonce
      && (DirectlyAuthorised(l.governance.value, rec, req) || SafeAuthorised(l.governance.value, rec, req))
  {
    if l.governance.Some? {
      DirectlyIff(l.governance.value, rec, req);
      if req.safeApproval.Some? {
        SafeIff(l.governance.value, rec, req);
      }
    }
  }

  /** Without the signatures of the threshold of governance signers nothing verifies:
      in particular no request without signatures. */
  lemma TooFewSignersRefused(g: Governance, rec: Recovery, req: ListRequest, who: set<Address>)
    requires forall a :: a in g.signers && CarriesSignatureOf(g, rec, req, a) ==> a in who
    requires |who| < g.threshold
    ensures !Verifies(g, rec, req)
  {
    if Verifies(g, rec, req) {
      var found := VerifiedByThreshold(g, rec, req);
      SubsetSize(found, who);
    }
  }

  // ---- the node -----------------------------------------------------------------------------

  /** The part of a node that governs direct transfers. */
  datatype Lists = Lists(governance: Option<Governance>, paths: seq<Path>, nonce: Uint64)

  const NO_LISTS := Lists(None, [], 0)

  function WithGovernance(l: Lists, g: Governance): (Lists, bool) {
    if l.governance.Some? || !GovernanceOk(g) then (l, false) else (l.(governance := Some(g)), true)
  }

  function WithList(l: Lists, rec: Recovery, req: ListRequest, timely: bool): (Lists, bool) {
    if l.governance.None? || !Verifies(l.governance.value, rec, req) || !timely || req.nonce <= l.nonce then (l, false)
    else (l.(paths := req.paths, nonce := req.nonce), true)
  }

  /** Until the first list is installed there is none, and none without governance. */
  ghost predicate ListsOk(l: Lists) {
    if l.nonce == 0 then l.paths == [] else l.governance.Some?
  }

  /** Governance is set once; a list is replaced only by a verified request that has a
      higher nonce, and becomes exactly the requested one. */
  lemma ListsStep(l: Lists, rec: Recovery, g: Governance, req: ListRequest, timely: bool)
    requires ListsOk(l)
    ensures ListsOk(WithGovernance(l, g).0) && ListsOk(WithList(l, rec, req, timely).0)
    ensures l.governance.Some? ==> WithGovernance(l, g).0 == l
    ensures WithGovernance(l, g).0.paths == l.paths && WithGovernance(l, g).0.nonce == l.nonce
    ensures var (m, ok) := WithList(l, rec, req, timely);
            if ok then l.governance.Some? && Verifies(l.governance.value, rec, req) && l.nonce < req.nonce
                       && m == Lists(l.governance, req.paths, req.nonce)
            else m == l
  {
  }

  // ---- using the list -----------------------------------------------------------------------

  /** validateKeyDirectBackupRequest at machine `self`. */
  predicate MayBackUp(l: Lists, self: Address, source: Address, listNonce: Uint64, destination: Address) {
    source == self && listNonce == l.nonce && PathAuthorizes(l.paths, self, destination)
  }

  /** validateKeyDirectRestoreRequest at machine `self`. */
  predicate MayRestore(l: Lists, self: Address, backupTee: Address, source: Address, listNonce: Uint64) {
    backupTee == source && listNonce <= l.nonce && PathAuthorizes(l.paths, source, self)
  }

  class Node {
    var governance: Option<Governance>
    var machinePaths: seq<Path>
    var machinePathNonce: Uint64

    function Value(): Lists
      reads this
    {
      Lists(governance, machinePaths, machinePathNonce)
    }

    constructor ()
      ensures Value() == NO_LISTS
    {
      governance, machinePaths, machinePathNonce := None, [], 0;
    }

    /** Can only be set once. */
    method SetGovernance(g: Governance) returns (r: Result<()>)
      modifies `governance
      ensures (Value(), r.Ok?) == WithGovernance(old(Value()), g)
      ensures r.Ok? <==>
        && old(governance).None? && 1 <= g.threshold <= |g.signers|
        && (forall i :: 0 <= i < |g.signers| ==> g.signers[i] != 0) && (g.safe == 0 <==> g.teeManager == 0)
      ensures governance == if r.Ok? then Some(g) else old(governance)
    {
      if governance.Some? {
        return Err("governance already set");
      }
      if g.threshold == 0 {
        return Err("governance threshold must be at least 1");
      }
      if |g.signers| < g.threshold {
        return Err("governance threshold exceeds signer count");
      }
      for i := 0 to |g.signers|
        invariant ZERO_ADDRESS !in g.signers[..i]
      {
        if g.signers[i] == ZERO_ADDRESS {
          return Err("governance signer is the zero address");
        }
      }
      assert g.signers[..|g.signers|] == g.signers;
      if (g.safe == ZERO_ADDRESS) != (g.teeManager == ZERO_ADDRESS) {
        return Err("governance safe and tee manager addresses must be set together");
      }
      governance := Some(g);
      return Ok(());
    }

    /** The handler: governance authorisation first, then a nonce above the current one. */
    method SetMachinePathList(rec: Recovery, req: ListRequest, timely: bool) returns (r: Result<()>)
      modifies `machinePaths, `machinePathNonce
      ensures (Value(), r.Ok?) == WithList(old(Value()), rec, req, timely)
    {
      if governance.None? {
        return Err("governance not configured");
      }
      var signed := VerifyGovernanceSignatures(governance.value, rec, req);
      if !signed {
        if req.safeApproval.None? || !SafeApproves(governance.value, rec, req.safeApproval.value, req) {
          return Err("not authorised by governance");
        }
      }
      if !timely {
        return Err("context deadline exceeded");
      }
      if req.nonce <= machinePathNonce {
        return Err("machine-path-list nonce not higher than current");
      }
      machinePaths, machinePathNonce := req.paths, req.nonce;
      return Ok(());
    }

    method ValidateBackupRequest(self: Address, source: Address, listNonce: Uint64, destination: Address)
      returns (r: Result<()>)
      ensures r.Ok? <==> MayBackUp(Value(), self, source, listNonce, destination)
      ensures r.Ok? <==>
        && source == self && listNonce == machinePathNonce
        && exists i :: 0 <= i < |machinePaths| && self in machinePaths[i].sources && destination in machinePaths[i].destinations
    {
      if source != self {
        return Err("requested sourceTeeId does not match this TEE");
      }
      if listNonce != machinePathNonce {
        return Err("machine-path-list nonce mismatch");
      }
      var found := FindPath(machinePaths, self, destination);
      return if found then Ok(()) else Err("no machine path authorizes this source and destination TEE");
    }

    method ValidateRestoreRequest(self: Address, backupTee: Address, source: Address, listNonce: Uint64)
      returns (r: Result<()>)
      ensures r.Ok? <==> MayRestore(Value(), self, backupTee, source, listNonce)
      ensures r.Ok? <==>
        && backupTee == source && listNonce <= machinePathNonce
        && exists i :: 0 <= i < |machinePaths| && source in machinePaths[i].sources && self in machinePaths[i].destinations
    {
      if backupTee != source {
        return Err("instruction BackupId.teeId does not match sourceTeeId");
      }
      if listNonce > machinePathNonce {
        return Err("stale node state");
      }
      var found := FindPath(machinePaths, source, self);
      return if found then Ok(()) else Err("no machine path authorizes this source TEE and this destination TEE");
    }
  }
}
