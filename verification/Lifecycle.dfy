/** What happens to one device over a whole run: its identity, once locked, and its
    way back from retirement. */
module Lifecycle {
  import opened Wrappers
  import opened Tables
  import opened Policies
  import opened Devices
  import opened DeviceAuth
  import opened Firmware
  import opened ReleaseSafety
  import opened UpdateDecisions
  import opened Ota
  import opened OtaSafety
  import opened World

  /* ----- identity ----- */

  ghost predicate SameIdentity(d: Device, e: Device) {
    d.typeId == e.typeId && d.serial == e.serial && d.mac == e.mac
  }

  ghost predicate LockHolds(db: Db, next: Db, id: int) {
    id in db.devices && id in next.devices && IdentityLocked(db, id) ==>
      IdentityLocked(next, id) && SameIdentity(db.devices[id], next.devices[id])
  }

  /** `next` is a later state: no id comes back, and no lock opens. */
  ghost predicate Later(db: Db, next: Db) {
    && db.nextId <= next.nextId
    && (forall id :: id in next.devices && id !in db.devices ==> db.nextId <= id)
    && forall id :: LockHolds(db, next, id)
  }

  lemma LaterAddsUp(a: Db, b: Db, c: Db)
    requires ReferencesSound(a) && Later(a, b) && Later(b, c)
    ensures Later(a, c)
  {
    forall id
      ensures LockHolds(a, c, id)
    {
      assert LockHolds(a, b, id) && LockHolds(b, c, id);
    }
  }

  /** The tables a device's history is read from only grow, as far as it is concerned. */
  ghost predicate HistoryGrows(db: Db, next: Db) {
    && db.communications <= next.communications
    && (forall a :: a in db.attempts ==> a in next.attempts)
    && (forall id :: id in db.policies ==>
          id in next.policies && next.policies[id].def.deviceId == db.policies[id].def.deviceId)
    && (forall id :: id in db.tokens ==>
          id in next.tokens && next.tokens[id].deviceId == db.tokens[id].deviceId)
  }

  lemma GrowingHistoryStays(db: Db, next: Db, id: int)
    requires HistoryGrows(db, next)
    ensures HasPurgeBlockers(db, id) ==> HasPurgeBlockers(next, id)
    ensures HasHistory(db, id) ==> HasHistory(next, id)
  {
  }

  /** Every call that leaves the device rows alone but for evidence. */
  lemma SameRowsAreLater(db: Db, next: Db)
    requires HistoryGrows(db, next) && db.nextId <= next.nextId
    requires next.devices.Keys == db.devices.Keys
    requires forall id :: id in db.devices ==> SameRegistration(db.devices[id], next.devices[id])
    ensures Later(db, next)
  {
    forall id
      ensures LockHolds(db, next, id)
    {
      GrowingHistoryStays(db, next, id);
    }
  }

  lemma DeviceStepIsLater(db: Db, op: DeviceOp)
    requires ReferencesSound(db) && ApplyDevice(db, op).Success?
    ensures Later(db, ApplyDevice(db, op).value)
  {
    var next := ApplyDevice(db, op).value;
    DeviceFootprint(db, op);
    if op.PurgeDevice? {
      PurgeIsLater(db, op.deviceId);
    } else {
      assert HistoryGrows(db, next);
      forall id
        ensures LockHolds(db, next, id)
      {
        GrowingHistoryStays(db, next, id);
      }
    }
  }

  /** A purge takes the tokens of the purged device with it, and of no other. */
  lemma PurgeIsLater(db: Db, id: int)
    requires Purge(db, id).Success?
    ensures Later(db, Purge(db, id).value)
  {
    var next := Purge(db, id).value;
    forall other
      ensures LockHolds(db, next, other)
    {
      assert forall t :: t in db.tokens && db.tokens[t].deviceId == other && other != id ==>
        t in next.tokens && next.tokens[t] == db.tokens[t];
      assert HasPurgeBlockers(db, other) == HasPurgeBlockers(next, other);
    }
  }

  lemma PolicyStepKeepsTargets(db: Db, op: PolicyOp)
    requires forall id :: id in db.policies ==> id < db.nextId
    ensures HistoryGrows(db, Kept(db, ApplyPolicy(db, op)))
  {
    PolicyFootprint(db, op);
    if op.EditPolicy? && ApplyPolicy(db, op).Success? {
      UpdateKeepsIdentity(db, op.policyId, op.edit);
    }
  }

  lemma TokenStepKeepsOwners(db: Db, op: TokenOp)
    requires ReferencesSound(db)
    ensures HistoryGrows(db, Kept(db, ApplyToken(db, op)))
  {
    TokenFootprint(db, op);
  }

  /** Every call leads to a later state. */
  lemma StepIsLater(cfg: Config, hash: string -> string, w: World, op: Op, w': World)
    requires Sound(cfg, w) && Next(cfg, hash, w, op, w')
    ensures Later(w.db, w'.db)
  {
    if op.OnDevice? {
      if ApplyDevice(w.db, op.deviceOp).Success? {
        DeviceStepIsLater(w.db, op.deviceOp);
      }
    } else {
      OtherStepKeepsRows(cfg, hash, w, op, w');
      SameRowsAreLater(w.db, w'.db);
    }
  }

  lemma OtherStepKeepsRows(cfg: Config, hash: string -> string, w: World, op: Op, w': World)
    requires Sound(cfg, w) && Next(cfg, hash, w, op, w') && !op.OnDevice?
    ensures HistoryGrows(w.db, w'.db) && w.db.nextId <= w'.db.nextId
    ensures w'.db.devices.Keys == w.db.devices.Keys
    ensures forall id :: id in w.db.devices ==> SameRegistration(w.db.devices[id], w'.db.devices[id])
  {
    if op.Poll? || op.Download? || op.CompleteDownload? {
      RequestChangesEvidenceOnly(cfg, hash, w, op, w');
    } else {
      AdminStepKeepsRows(cfg, hash, w, op, w');
    }
  }

  lemma AdminStepKeepsRows(cfg: Config, hash: string -> string, w: World, op: Op, w': World)
    requires Sound(cfg, w) && Next(cfg, hash, w, op, w') && !op.OnDevice?
    requires !op.Poll? && !op.Download? && !op.CompleteDownload?
    ensures HistoryGrows(w.db, w'.db) && w.db.nextId <= w'.db.nextId && w'.db.devices == w.db.devices
  {
    match op
    case OnType(o) => TypeFootprint(w.db, o);
    case OnToken(o) =>
      TokenFootprint(w.db, o);
      TokenStepKeepsOwners(w.db, o);
    case OnPolicy(o) =>
      PolicyFootprint(w.db, o);
      PolicyStepKeepsTargets(w.db, o);
    case OnRelease(o) => ReleaseFootprint(cfg, w, o);
    case UploadRelease(typeId, version, upload, faults, settings) =>
      SettingsDoNotMatter(cfg, settings, w.db, w.objects);
      UploadFootprint(Under(cfg, settings), w, typeId, version, upload, faults);
  }

  lemma RequestChangesEvidenceOnly(cfg: Config, hash: string -> string, w: World, op: Op, w': World)
    requires Sound(cfg, w) && Next(cfg, hash, w, op, w')
    requires op.Poll? || op.Download? || op.CompleteDownload?
    ensures OnlyEvidenceChanged(w.db, w'.db)
  {
    match op
    case Poll(req, allowed, now, reachable, response) =>
      PollChangesEvidenceOnly(hash, w.db, w.objects, req, allowed, now, reachable, w'.db, response);
    case Download(req, version, filename, allowed, now, reachable, response) =>
      DownloadChangesEvidenceOnly(
        hash, w.db, w.objects, req, version, filename, allowed, now, reachable, w'.db, response);
    case CompleteDownload(ticket, records) => CompletionFootprint(w.db, ticket, records);
  }

  lemma CallGoesLater(cfg: Config, hash: string -> string, worlds: seq<World>, ops: seq<Op>, k: nat)
    requires IsRun(cfg, hash, worlds, ops) && worlds[0] == INITIAL && 0 < k < |worlds|
    ensures Later(worlds[k - 1].db, worlds[k].db)
  {
    RunIsSound(cfg, hash, worlds, ops, k - 1);
    assert StepAt(cfg, hash, worlds, ops, k - 1);
    StepIsLater(cfg, hash, worlds[k - 1], ops[k - 1], worlds[k]);
  }

  lemma {:induction false} RunGoesLater(
    cfg: Config, hash: string -> string, worlds: seq<World>, ops: seq<Op>, i: nat, j: nat)
    requires IsRun(cfg, hash, worlds, ops) && worlds[0] == INITIAL && i <= j < |worlds|
    ensures Later(worlds[i].db, worlds[j].db)
    decreases j
  {
    RunIsSound(cfg, hash, worlds, ops, i);
    if i < j {
      RunGoesLater(cfg, hash, worlds, ops, i, j - 1);
      CallGoesLater(cfg, hash, worlds, ops, j);
      LaterAddsUp(worlds[i].db, worlds[j - 1].db, worlds[j].db);
    }
  }

  /** Once a device has left PROVISIONED or has any history, its type, serial and
      address are fixed for as long as the row exists, and it stays locked. An id
      that was purged does not come back. */
  lemma LockedIdentityIsFixed(
    cfg: Config, hash: string -> string, worlds: seq<World>, ops: seq<Op>, i: nat, j: nat, id: int)
    requires IsRun(cfg, hash, worlds, ops) && worlds[0] == INITIAL && i <= j < |worlds|
    requires id in worlds[i].db.devices && IdentityLocked(worlds[i].db, id)
    requires id in worlds[j].db.devices
    ensures SameIdentity(worlds[i].db.devices[id], worlds[j].db.devices[id])
    ensures IdentityLocked(worlds[j].db, id)
    ensures forall k :: i <= k <= j ==> id in worlds[k].db.devices
  {
    RunGoesLater(cfg, hash, worlds, ops, i, j);
    assert LockHolds(worlds[i].db, worlds[j].db, id);
    RunIsSound(cfg, hash, worlds, ops, i);
    forall k | i <= k <= j
      ensures id in worlds[k].db.devices
    {
      RunGoesLater(cfg, hash, worlds, ops, i, k);
      RunGoesLater(cfg, hash, worlds, ops, k, j);
    }
  }

  /** A device that authenticates owns a token, so its identity is fixed from then on. */
  lemma AuthenticatedIsLocked(db: Db, hash: string -> string, c: Credentials, id: int)
    requires SerialsUnique(db) && Identify(db, hash, c) == Success(id)
    ensures id in db.devices && IdentityLocked(db, id)
  {
    IdentifyIsProof(db, hash, c);
    var t :| Holds(db, id, t, hash(c.token.value));
    assert HasToken(db, id);
  }

  ghost predicate Authenticates(db: Db, hash: string -> string, op: Op, id: int) {
    (op.Poll? || op.Download?) && Identify(db, hash, op.req.credentials) == Success(id)
  }

  /** So every device that ever authenticates has one type, one serial and one
      address from its first request on. */
  lemma AuthenticatedIdentityIsFixed(
    cfg: Config, hash: string -> string, worlds: seq<World>, ops: seq<Op>, i: nat, j: nat, id: int)
    requires IsRun(cfg, hash, worlds, ops) && worlds[0] == INITIAL && i <= j < |worlds| && i < |ops|
    requires Authenticates(worlds[i].db, hash, ops[i], id) && id in worlds[j].db.devices
    ensures id in worlds[i].db.devices && SameIdentity(worlds[i].db.devices[id], worlds[j].db.devices[id])
    ensures IdentityLocked(worlds[j].db, id)
  {
    RunIsSound(cfg, hash, worlds, ops, i);
    AuthenticatedIsLocked(worlds[i].db, hash, ops[i].req.credentials, id);
    LockedIdentityIsFixed(cfg, hash, worlds, ops, i, j, id);
  }

  /* ----- retirement ----- */

  /** How one call can move a device that has left PROVISIONED: the row stays, its
      status changes only by an allowed transition asked for, and its OTA flag rises
      only when asked to. */
  ghost predicate MovesBy(db: Db, op: Op, next: Db, id: int)
    requires id in db.devices
  {
    var d := db.devices[id];
    && id in next.devices
    && var e := next.devices[id];
       && !e.status.Provisioned?
       && (e.status != d.status ==> op == OnDevice(ChangeStatus(id, e.status)) && AllowedTransition(d.status, e.status))
       && (e.otaEnabled && !d.otaEnabled ==> op == OnDevice(EnableOta(id, true)))
  }

  lemma DeviceStepMoves(db: Db, op: DeviceOp, id: int)
    requires id in db.devices && id < db.nextId && !db.devices[id].status.Provisioned?
    ensures MovesBy(db, OnDevice(op), Kept(db, ApplyDevice(db, op)), id)
  {
  }

  lemma StepMoves(cfg: Config, hash: string -> string, w: World, op: Op, w': World, id: int)
    requires Sound(cfg, w) && Next(cfg, hash, w, op, w')
    requires id in w.db.devices && !w.db.devices[id].status.Provisioned?
    ensures MovesBy(w.db, op, w'.db, id)
  {
    if op.OnDevice? {
      DeviceStepMoves(w.db, op.deviceOp, id);
    } else {
      OtherStepKeepsRows(cfg, hash, w, op, w');
    }
  }

  /** Call `k` was asked to, and did, move the device from one status to the other. */
  ghost predicate Turns(worlds: seq<World>, ops: seq<Op>, k: nat, id: int, from: DeviceStatus, to: DeviceStatus)
    requires |worlds| == |ops| + 1 && k < |ops|
  {
    && ops[k] == OnDevice(ChangeStatus(id, to))
    && id in worlds[k].db.devices && worlds[k].db.devices[id].status == from
    && id in worlds[k + 1].db.devices && worlds[k + 1].db.devices[id].status == to
  }

  /** Call `k` was asked to, and did, raise the device's OTA flag. */
  ghost predicate TurnsOn(worlds: seq<World>, ops: seq<Op>, k: nat, id: int)
    requires |worlds| == |ops| + 1 && k < |ops|
  {
    && ops[k] == OnDevice(EnableOta(id, true))
    && id in worlds[k].db.devices && !worlds[k].db.devices[id].otaEnabled
    && id in worlds[k + 1].db.devices && worlds[k + 1].db.devices[id].otaEnabled
  }

  ghost predicate LeftRetirement(worlds: seq<World>, ops: seq<Op>, i: nat, j: nat, id: int)
    requires |worlds| == |ops| + 1 && j <= |ops|
  {
    exists a: nat :: i <= a < j && Turns(worlds, ops, a, id, Retired, Disabled)
  }

  ghost predicate LeftThenActivated(worlds: seq<World>, ops: seq<Op>, i: nat, j: nat, id: int)
    requires |worlds| == |ops| + 1 && j <= |ops|
  {
    exists b: nat :: i <= b < j && LeftRetirement(worlds, ops, i, b, id) && Turns(worlds, ops, b, id, Disabled, Active)
  }

  ghost predicate TurnedOn(worlds: seq<World>, ops: seq<Op>, i: nat, j: nat, id: int)
    requires |worlds| == |ops| + 1 && j <= |ops|
  {
    exists e: nat :: i <= e < j && TurnsOn(worlds, ops, e, id)
  }

  /** What it took for a device retired at `i` to be as it is at `j`. */
  ghost predicate WayBack(worlds: seq<World>, ops: seq<Op>, i: nat, j: nat, id: int)
    requires |worlds| == |ops| + 1 && i <= j <= |ops|
  {
    && id in worlds[j].db.devices
    && var d := worlds[j].db.devices[id];
       && !d.status.Provisioned?
       && (!d.status.Retired? ==> LeftRetirement(worlds, ops, i, j, id))
       && (d.status.Active? ==> LeftThenActivated(worlds, ops, i, j, id))
       && (d.otaEnabled ==> TurnedOn(worlds, ops, i, j, id))
  }

  lemma WayBackGoesOn(worlds: seq<World>, ops: seq<Op>, i: nat, j: nat, id: int)
    requires |worlds| == |ops| + 1 && i <= j < |ops| && WayBack(worlds, ops, i, j, id)
    requires MovesBy(worlds[j].db, ops[j], worlds[j + 1].db, id)
    ensures WayBack(worlds, ops, i, j + 1, id)
  {
    var d, e := worlds[j].db.devices[id], worlds[j + 1].db.devices[id];
    if e.status != d.status {
      assert Turns(worlds, ops, j, id, d.status, e.status);
    }
    if e.otaEnabled && !d.otaEnabled {
      assert TurnsOn(worlds, ops, j, id);
    }
  }

  ghost predicate RunMoves(worlds: seq<World>, ops: seq<Op>, id: int) {
    && |worlds| == |ops| + 1
    && forall k {:trigger ops[k]} :: 0 <= k < |ops| ==>
         id in worlds[k].db.devices && !worlds[k].db.devices[id].status.Provisioned? ==>
           MovesBy(worlds[k].db, ops[k], worlds[k + 1].db, id)
  }

  lemma EveryRunMoves(cfg: Config, hash: string -> string, worlds: seq<World>, ops: seq<Op>, id: int)
    requires IsRun(cfg, hash, worlds, ops) && worlds[0] == INITIAL
    ensures RunMoves(worlds, ops, id)
  {
    forall k: nat {:trigger ops[k]} | && k < |ops|
                && id in worlds[k].db.devices && !worlds[k].db.devices[id].status.Provisioned?
      ensures MovesBy(worlds[k].db, ops[k], worlds[k + 1].db, id)
    {
      RunIsSound(cfg, hash, worlds, ops, k);
      assert StepAt(cfg, hash, worlds, ops, k);
      StepMoves(cfg, hash, worlds[k], ops[k], worlds[k + 1], id);
    }
  }

  lemma {:induction false} RetiredWayBack(worlds: seq<World>, ops: seq<Op>, i: nat, j: nat, id: int)
    requires RunMoves(worlds, ops, id) && i <= j < |worlds|
    requires OutOfService(worlds[i].db, id)
    ensures WayBack(worlds, ops, i, j, id)
    decreases j
  {
    if i < j {
      RetiredWayBack(worlds, ops, i, j - 1, id);
      WayBackGoesOn(worlds, ops, i, j - 1, id);
    }
  }

  ghost predicate Served(db: Db, hash: string -> string, op: Op, id: int) {
    && Authenticates(db, hash, op, id)
    && (if op.Poll? then op.response.ManifestServed? else op.response.FirmwareServed?)
  }

  ghost predicate OutOfService(db: Db, id: int) {
    id in db.devices && db.devices[id].status.Retired? && !db.devices[id].otaEnabled
  }

  ghost predicate Enabled(db: Db, id: int) {
    id in db.devices && db.devices[id].status.Active? && db.devices[id].otaEnabled
  }

  /** Neither endpoint serves a device that is not active with OTA enabled. */
  lemma ServedIsEnabled(cfg: Config, hash: string -> string, w: World, op: Op, w': World, id: int)
    requires Sound(cfg, w) && Next(cfg, hash, w, op, w') && Served(w.db, hash, op, id)
    ensures Enabled(w.db, id)
  {
    if op.Poll? {
      OfferedIsEnabled(hash, w, op, w', id);
    } else {
      DeliveredIsEnabled(hash, w, op, w', id);
    }
  }

  lemma DeliveredIsEnabled(hash: string -> string, w: World, op: Op, w': World, id: int)
    requires op.Download? && op.response.FirmwareServed? && PoliciesSound(w.db) && SerialsUnique(w.db)
    requires Downloads(hash, w.db, w.objects, op.req, op.version, op.filename, op.allowed, op.now, op.reachable,
                       w'.db, op.response)
    requires Identify(w.db, hash, op.req.credentials) == Success(id)
    ensures Enabled(w.db, id)
  {
    IdentifyIsProof(w.db, hash, op.req.credentials);
  }

  lemma OfferedIsEnabled(hash: string -> string, w: World, op: Op, w': World, id: int)
    requires op.Poll? && op.response.ManifestServed? && PoliciesSound(w.db) && SerialsUnique(w.db)
    requires Polls(hash, w.db, w.objects, op.req, op.allowed, op.now, op.reachable, w'.db, op.response)
    requires Identify(w.db, hash, op.req.credentials) == Success(id)
    ensures Enabled(w.db, id)
  {
    var who, checked, d := ServedMeansOffered(
      hash, w.db, w.objects, op.req, op.allowed, op.now, op.reachable, w'.db, op.response);
    OfferIsEntitled(checked, who, op.req.code, op.req.platform, op.now, d);
  }

  /** Within the calls from `i` to `j` the device was in fact moved to DISABLED, later
      on to ACTIVE, and had its flag raised. */
  ghost predicate CameBack(worlds: seq<World>, ops: seq<Op>, i: nat, j: nat, id: int)
    requires |worlds| == |ops| + 1 && j <= |ops|
  {
    && (exists a: nat, b: nat :: && i <= a < b < j && Turns(worlds, ops, a, id, Retired, Disabled)
                                 && Turns(worlds, ops, b, id, Disabled, Active))
    && (exists e: nat :: i <= e < j && TurnsOn(worlds, ops, e, id))
  }

  ghost predicate Retires(w: World, op: Op, id: int) {
    op == OnDevice(ChangeStatus(id, Retired)) && SetStatus(w.db, id, Retired).Success?
  }

  /** After its retirement a device is served neither a manifest nor firmware until
      it was moved from RETIRED to DISABLED, after that from DISABLED to ACTIVE, and,
      at some time since the retirement, its flag was explicitly raised. */
  lemma RetirementLasts(
    cfg: Config, hash: string -> string, worlds: seq<World>, ops: seq<Op>, i: nat, j: nat, id: int)
    requires IsRun(cfg, hash, worlds, ops) && worlds[0] == INITIAL && i < j < |ops|
    requires Retires(worlds[i], ops[i], id) && Served(worlds[j].db, hash, ops[j], id)
    ensures CameBack(worlds, ops, i + 1, j, id)
  {
    EnabledWhenServed(cfg, hash, worlds, ops, j, id);
    OutOfServiceAfter(cfg, hash, worlds, ops, i, id);
    WayBackToEnabled(cfg, hash, worlds, ops, i + 1, j, id);
  }

  lemma EnabledWhenServed(
    cfg: Config, hash: string -> string, worlds: seq<World>, ops: seq<Op>, j: nat, id: int)
    requires IsRun(cfg, hash, worlds, ops) && worlds[0] == INITIAL && j < |ops|
    requires Served(worlds[j].db, hash, ops[j], id)
    ensures Enabled(worlds[j].db, id)
  {
    RunIsSound(cfg, hash, worlds, ops, j);
    assert StepAt(cfg, hash, worlds, ops, j);
    ServedIsEnabled(cfg, hash, worlds[j], ops[j], worlds[j + 1], id);
  }

  lemma WayBackToEnabled(
    cfg: Config, hash: string -> string, worlds: seq<World>, ops: seq<Op>, i: nat, j: nat, id: int)
    requires IsRun(cfg, hash, worlds, ops) && worlds[0] == INITIAL && i <= j < |worlds|
    requires OutOfService(worlds[i].db, id) && Enabled(worlds[j].db, id)
    ensures CameBack(worlds, ops, i, j, id)
  {
    EveryRunMoves(cfg, hash, worlds, ops, id);
    RetiredWayBack(worlds, ops, i, j, id);
    WayBackIsCameBack(worlds, ops, i, j, id);
  }

  lemma WayBackIsCameBack(worlds: seq<World>, ops: seq<Op>, i: nat, j: nat, id: int)
    requires |worlds| == |ops| + 1 && i <= j <= |ops| && WayBack(worlds, ops, i, j, id) && Enabled(worlds[j].db, id)
    ensures CameBack(worlds, ops, i, j, id)
  {
    var b: nat :| i <= b < j && LeftRetirement(worlds, ops, i, b, id) && Turns(worlds, ops, b, id, Disabled, Active);
    var a: nat :| i <= a < b && Turns(worlds, ops, a, id, Retired, Disabled);
    assert i <= a < b < j;
  }

  lemma OutOfServiceAfter(
    cfg: Config, hash: string -> string, worlds: seq<World>, ops: seq<Op>, i: nat, id: int)
    requires IsRun(cfg, hash, worlds, ops) && i < |ops| && Retires(worlds[i], ops[i], id)
    ensures OutOfService(worlds[i + 1].db, id)
  {
    assert StepAt(cfg, hash, worlds, ops, i);
  }
}
