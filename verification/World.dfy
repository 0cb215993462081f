/** The whole service as one state machine: any serial run of committed or rolled
    back calls from empty tables, and what every state of such a run satisfies. */
module World {
  import opened Wrappers
  import opened Tables
  import opened Policies
  import opened Devices
  import opened DeviceAuth
  import opened Firmware
  import opened ReleaseSafety
  import opened UpdateDecisions
  import opened Ota
  import opened OtaSafety

  /** A firmware response under way: what its completion callback is bound to. */
  datatype Ticket = Ticket(deviceId: int, releaseId: int, size: nat)

  /** `open` holds the served firmware responses whose callback has not run. */
  datatype World = World(db: Db, objects: Objects, open: multiset<Ticket>)

  const INITIAL := World(EMPTY_DB, map[], multiset{})

  /* ----- steps ----- */

  datatype TypeOp =
    | AddType(code: string, platform: string)
    | EditType(typeId: int, newCode: Option<string>, newPlatform: Option<string>)
    | ActivateType(typeId: int, isActive: bool)
    | RemoveType(typeId: int)

  datatype DeviceOp =
    | RegisterDevice(
        typeId: int, serial: int, rawMac: Option<string>, rawNetworkMac: Option<string>, otaEnabled: bool)
    | ChangeStatus(deviceId: int, status: DeviceStatus)
    | ChangeIdentity(deviceId: int, changes: IdentityChanges)
    | PurgeDevice(deviceId: int)
    | EnableOta(deviceId: int, otaEnabled: bool)
    | AssertVersion(deviceId: int, version: Option<string>)
    | Communicate(deviceId: int)

  datatype TokenOp =
    | IssueFor(deviceId: int, hash: string)
    | RotateFor(deviceId: int, tokenId: int, hash: string, now: int)
    | RevokeFor(tokenId: int, owner: Option<int>, now: int)

  datatype PolicyOp =
    | AddPolicy(def: Definition, priority: int)
    | EditPolicy(policyId: int, edit: Changes)
    | ActivatePolicy(policyId: int, isActive: bool)
    | RetirePolicy(policyId: int, now: int)
    | ReinstatePolicy(policyId: int)

  datatype ReleaseOp =
    | Draft(releaseId: int)
    | Publish(releaseId: int, reachable: bool, settings: Settings)
    | Deprecate(releaseId: int)
    | Archive(releaseId: int)
    | Restore(releaseId: int)

  datatype Op =
    | OnType(typeOp: TypeOp)
    | OnDevice(deviceOp: DeviceOp)
    | OnToken(tokenOp: TokenOp)
    | OnPolicy(policyOp: PolicyOp)
    | OnRelease(releaseOp: ReleaseOp)
    | UploadRelease(typeId: int, version: string, upload: Upload, faults: Faults, settings: Settings)
    | Poll(req: Request, allowed: bool, now: int, reachable: bool, response: Response)
    | Download(req: Request, version: string, filename: string, allowed: bool, now: int, reachable: bool,
               response: Response)
    | CompleteDownload(ticket: Ticket, records: bool)

  function ApplyType(db: Db, op: TypeOp): Result<Db, Code> {
    match op
    case AddType(code, platform) => CreateType(db, code, platform)
    case EditType(id, code, platform) => UpdateType(db, id, code, platform)
    case ActivateType(id, isActive) => SetTypeActive(db, id, isActive)
    case RemoveType(id) => DeleteType(db, id)
  }

  function ApplyDevice(db: Db, op: DeviceOp): Result<Db, Code> {
    match op
    case RegisterDevice(typeId, serial, rawMac, rawNetworkMac, otaEnabled) =>
      Register(db, typeId, serial, rawMac, rawNetworkMac, otaEnabled)
    case ChangeStatus(id, status) => SetStatus(db, id, status)
    case ChangeIdentity(id, changes) => UpdateIdentity(db, id, changes)
    case PurgeDevice(id) => Purge(db, id)
    case EnableOta(id, otaEnabled) => SetOtaEnabled(db, id, otaEnabled)
    case AssertVersion(id, version) => SetKnownVersion(db, id, version)
    case Communicate(id) => RecordCommunication(db, id)
  }

  /** A communication row refers to a device once it has authenticated. */
  function RecordCommunication(db: Db, id: int): Result<Db, Code> {
    if id !in db.devices then Failure(DeviceNotFound)
    else Success(db.(communications := db.communications + {id}))
  }

  function ApplyToken(db: Db, op: TokenOp): Result<Db, Code> {
    match op
    case IssueFor(deviceId, hash) => IssueToken(db, deviceId, hash)
    case RotateFor(deviceId, tokenId, hash, now) => RotateToken(db, deviceId, tokenId, hash, now)
    case RevokeFor(tokenId, owner, now) => RevokeToken(db, tokenId, owner, now)
  }

  ghost function ApplyPolicy(db: Db, op: PolicyOp): Result<Db, Code> {
    match op
    case AddPolicy(def, priority) => CreatePolicy(db, def, priority)
    case EditPolicy(id, edit) => UpdatePolicy(db, id, edit)
    case ActivatePolicy(id, isActive) => SetPolicyActive(db, id, isActive)
    case RetirePolicy(id, now) => ArchivePolicy(db, id, now)
    case ReinstatePolicy(id) => RestorePolicy(db, id)
  }

  function ApplyRelease(cfg: Config, w: World, op: ReleaseOp): Result<Db, Code> {
    match op
    case Draft(id) => MarkDraft(w.db, id)
    case Publish(id, reachable, settings) => PublishRelease(Under(cfg, settings), w.db, w.objects, id, reachable)
    case Deprecate(id) => DeprecateRelease(w.db, id)
    case Archive(id) => ArchiveRelease(w.db, id)
    case Restore(id) => RestoreRelease(w.db, id)
  }

  /** A refused call leaves the tables as they were. */
  function Kept(db: Db, r: Result<Db, Code>): Db {
    if r.Success? then r.value else db
  }

  /** One call. The endpoints' answers are part of the step, because a poll may choose
      between spellings of one version number. */
  ghost predicate Next(cfg: Config, hash: string -> string, w: World, op: Op, w': World) {
    match op
    case OnType(o) => w' == w.(db := Kept(w.db, ApplyType(w.db, o)))
    case OnDevice(o) => w' == w.(db := Kept(w.db, ApplyDevice(w.db, o)))
    case OnToken(o) => w' == w.(db := Kept(w.db, ApplyToken(w.db, o)))
    case OnPolicy(o) => w' == w.(db := Kept(w.db, ApplyPolicy(w.db, o)))
    case OnRelease(o) => w' == w.(db := Kept(w.db, ApplyRelease(cfg, w, o)))
    case UploadRelease(typeId, version, upload, faults, settings) =>
      var o := CreateRelease(Under(cfg, settings), w.db, w.objects, typeId, version, upload, faults);
      w' == w.(db := o.db, objects := o.objects)
    case Poll(req, allowed, now, reachable, response) =>
      && PoliciesSound(w.db) && SerialsUnique(w.db)
      && Polls(hash, w.db, w.objects, req, allowed, now, reachable, w'.db, response)
      && w'.objects == w.objects && w'.open == w.open
    case Download(req, version, filename, allowed, now, reachable, response) =>
      && PoliciesSound(w.db) && SerialsUnique(w.db)
      && Downloads(hash, w.db, w.objects, req, version, filename, allowed, now, reachable, w'.db, response)
      && w'.objects == w.objects && w'.open == w.open + Opened(hash, w.db, op)
    case CompleteDownload(ticket, records) =>
      && ticket in w.open
      && w' == w.(db := Completed(w.db, ticket, records), open := w.open - multiset{ticket})
  }

  /** The response a download starts, if it starts one. */
  ghost function Opened(hash: string -> string, db: Db, op: Op): multiset<Ticket> {
    if op.Download? && op.response.FirmwareServed? && Identify(db, hash, op.req.credentials).Success? then
      multiset{Ticket(Identify(db, hash, op.req.credentials).value, op.response.release.id, op.response.contentLength)}
    else multiset{}
  }

  /** The completion callback, whose own transaction may fail and is then only logged. */
  function Completed(db: Db, ticket: Ticket, records: bool): Db {
    if records then RecordDownload(db, ticket.deviceId, ticket.releaseId, ticket.size) else db
  }

  /* ----- which tables a call can touch ----- */

  lemma TypeFootprint(db: Db, op: TypeOp)
    ensures
      var next := Kept(db, ApplyType(db, op));
      next == db.(types := next.types, nextId := next.nextId) && db.nextId <= next.nextId
  {
  }

  lemma DeviceFootprint(db: Db, op: DeviceOp)
    ensures
      var next := Kept(db, ApplyDevice(db, op));
      && next == db.(devices := next.devices, tokens := next.tokens,
                     communications := next.communications, nextId := next.nextId)
      && db.nextId <= next.nextId
  {
  }

  lemma TokenFootprint(db: Db, op: TokenOp)
    ensures
      var next := Kept(db, ApplyToken(db, op));
      next == db.(tokens := next.tokens, nextId := next.nextId) && db.nextId <= next.nextId
  {
  }

  lemma PolicyFootprint(db: Db, op: PolicyOp)
    ensures
      var next := Kept(db, ApplyPolicy(db, op));
      next == db.(policies := next.policies, nextId := next.nextId) && db.nextId <= next.nextId
  {
  }

  /** The lifecycle changes one release's status and nothing else, never back to the
      transient `Uploaded`. */
  lemma ReleaseFootprint(cfg: Config, w: World, op: ReleaseOp)
    ensures
      var next := Kept(w.db, ApplyRelease(cfg, w, op));
      next == w.db || exists id, status :: StatusChanged(w.db, next, id, status)
  {
    var next := Kept(w.db, ApplyRelease(cfg, w, op));
    if ApplyRelease(cfg, w, op).Success? {
      assert StatusChanged(w.db, next, op.releaseId, next.releases[op.releaseId].status);
    }
  }

  ghost predicate StatusChanged(db: Db, next: Db, id: int, status: ReleaseStatus) {
    id in db.releases && next == WithStatus(db, id, status) && !status.Uploaded?
  }

  lemma CompletionFootprint(db: Db, ticket: Ticket, records: bool)
    ensures
      var next := Completed(db, ticket, records);
      OnlyEvidenceChanged(db, next) && next == db.(attempts := next.attempts)
  {
  }

  /* ----- the invariant ----- */

  ghost predicate MacsUnique(db: Db) {
    forall i, j :: (&& i in db.devices && j in db.devices
                    && db.devices[i].mac.Some? && db.devices[i].mac == db.devices[j].mac) ==> i == j
  }

  /** Ids are fresh, every reference points at an existing row, and no token has an
      expiry. */
  ghost predicate ReferencesSound(db: Db) {
    && (forall id :: id in db.devices ==> id < db.nextId && db.devices[id].typeId in db.types)
    && (forall id :: id in db.tokens ==>
          id < db.nextId && db.tokens[id].deviceId in db.devices && db.tokens[id].expiresAt.None?)
    && (forall id :: id in db.policies ==> TargetExists(db, db.policies[id].def))
    && (forall a :: a in db.attempts ==> a.deviceId in db.devices && a.releaseId in db.releases)
    && db.communications <= db.devices.Keys
  }

  ghost predicate TargetExists(db: Db, d: Definition) {
    && (d.deviceTypeId.Some? ==> d.deviceTypeId.value in db.types)
    && (d.deviceId.Some? ==> d.deviceId.value in db.devices)
  }

  /** At most one recorded offer per device and target version. */
  ghost predicate OffersUnique(db: Db) {
    forall i, j :: (&& 0 <= i < |db.attempts| && 0 <= j < |db.attempts|
                    && db.attempts[i].status.UpdateOffered? && db.attempts[j].status.UpdateOffered?
                    && db.attempts[i].deviceId == db.attempts[j].deviceId
                    && db.attempts[i].toVersion == db.attempts[j].toVersion) ==> i == j
  }

  ghost predicate Sound(cfg: Config, w: World) {
    && StateSound(cfg, w.db, w.objects)
    && ReferencesSound(w.db) && MacsUnique(w.db) && OffersUnique(w.db)
  }

  /* ----- every step keeps it ----- */

  lemma PoliciesUntouched(db: Db, next: Db)
    requires PoliciesSound(db) && next.policies == db.policies && db.nextId <= next.nextId
    ensures PoliciesSound(next)
  {
  }

  lemma ReleasesUntouched(cfg: Config, db: Db, next: Db, objects: Objects)
    requires ReleasesSound(cfg, db, objects)
    requires next.releases == db.releases && next.types == db.types && db.nextId <= next.nextId
    ensures ReleasesSound(cfg, next, objects)
  {
    forall id | id in next.releases
      ensures ReleaseSound(cfg, next, objects, id)
    {
      assert ReleaseSound(cfg, db, objects, id);
    }
  }

  lemma DevicesUntouched(db: Db, next: Db)
    requires SerialsUnique(db) && HashesUnique(db) && MacsUnique(db)
    requires next.devices == db.devices && next.tokens == db.tokens
    ensures SerialsUnique(next) && HashesUnique(next) && MacsUnique(next)
  {
  }

  lemma OffersUntouched(db: Db, next: Db)
    requires OffersUnique(db) && next.attempts == db.attempts
    ensures OffersUnique(next)
  {
  }

  lemma TypeStepKeepsReleases(cfg: Config, db: Db, objects: Objects, op: TypeOp)
    requires ReleasesSound(cfg, db, objects) && ApplyType(db, op).Success?
    ensures ReleasesSound(cfg, ApplyType(db, op).value, objects)
  {
    match op
    case AddType(code, platform) => CreateTypeKeepsSound(cfg, db, objects, code, platform);
    case EditType(id, code, platform) => UpdateTypeKeepsSound(cfg, db, objects, id, code, platform);
    case ActivateType(id, isActive) => SetTypeActiveKeepsSound(cfg, db, objects, id, isActive);
    case RemoveType(id) => DeleteTypeKeepsSound(cfg, db, objects, id);
  }

  /** A type that anything refers to cannot be deleted. */
  lemma TypeStepKeepsReferences(db: Db, op: TypeOp)
    requires ReferencesSound(db) && ApplyType(db, op).Success?
    ensures ReferencesSound(ApplyType(db, op).value)
  {
  }

  lemma TypeStepKeepsSound(cfg: Config, w: World, op: TypeOp)
    requires Sound(cfg, w) && ApplyType(w.db, op).Success?
    ensures Sound(cfg, w.(db := ApplyType(w.db, op).value))
  {
    var db, next := w.db, ApplyType(w.db, op).value;
    TypeFootprint(db, op);
    PoliciesUntouched(db, next);
    DevicesUntouched(db, next);
    OffersUntouched(db, next);
    TypeStepKeepsReleases(cfg, db, w.objects, op);
    TypeStepKeepsReferences(db, op);
  }

  lemma DeviceStepKeepsSound(cfg: Config, w: World, op: DeviceOp)
    requires Sound(cfg, w) && ApplyDevice(w.db, op).Success?
    ensures Sound(cfg, w.(db := ApplyDevice(w.db, op).value))
  {
    var db, next := w.db, ApplyDevice(w.db, op).value;
    DeviceFootprint(db, op);
    PoliciesUntouched(db, next);
    ReleasesUntouched(cfg, db, next, w.objects);
    OffersUntouched(db, next);
    DeviceStepKeepsUnique(db, op);
    DeviceStepKeepsReferences(db, op);
  }

  lemma DeviceStepKeepsUnique(db: Db, op: DeviceOp)
    requires SerialsUnique(db) && HashesUnique(db) && MacsUnique(db)
    requires (forall id :: id in db.devices ==> id < db.nextId) && ApplyDevice(db, op).Success?
    ensures
      var next := ApplyDevice(db, op).value;
      SerialsUnique(next) && HashesUnique(next) && MacsUnique(next)
  {
    match op
    case RegisterDevice(typeId, serial, rawMac, rawNetworkMac, otaEnabled) =>
      RegisterKeepsUnique(db, typeId, serial, rawMac, rawNetworkMac, otaEnabled);
    case ChangeIdentity(id, changes) => IdentityKeepsUnique(db, id, changes);
    case _ =>
  }

  lemma RegisterKeepsUnique(
    db: Db, typeId: int, serial: int, rawMac: Option<string>, rawNetworkMac: Option<string>, otaEnabled: bool)
    requires SerialsUnique(db) && MacsUnique(db)
    requires Register(db, typeId, serial, rawMac, rawNetworkMac, otaEnabled).Success?
    ensures
      var next := Register(db, typeId, serial, rawMac, rawNetworkMac, otaEnabled).value;
      SerialsUnique(next) && MacsUnique(next) && next.tokens == db.tokens
  {
    var next := Register(db, typeId, serial, rawMac, rawNetworkMac, otaEnabled).value;
    assert !SerialTaken(db, serial, None) && !MacTaken(db, next.devices[db.nextId].mac, None);
    NewRowKeepsUnique(db, next, db.nextId);
  }

  lemma IdentityKeepsUnique(db: Db, id: int, changes: IdentityChanges)
    requires SerialsUnique(db) && MacsUnique(db) && UpdateIdentity(db, id, changes).Success?
    ensures
      var next := UpdateIdentity(db, id, changes).value;
      SerialsUnique(next) && MacsUnique(next) && next.tokens == db.tokens
  {
    var next := UpdateIdentity(db, id, changes).value;
    assert changes.serial.Some? ==> !SerialTaken(db, changes.serial.value, Some(id));
    assert changes.rawMac.Some? ==> !MacTaken(db, next.devices[id].mac, Some(id));
    NewRowKeepsUnique(db, next, id);
  }

  /** Writing one row whose serial and address no other row has. */
  lemma NewRowKeepsUnique(db: Db, next: Db, id: int)
    requires SerialsUnique(db) && MacsUnique(db) && id in next.devices
    requires next.devices == db.devices[id := next.devices[id]]
    requires forall j :: j in db.devices && j != id ==> db.devices[j].serial != next.devices[id].serial
    requires next.devices[id].mac.Some? ==>
               forall j :: j in db.devices && j != id ==> db.devices[j].mac != next.devices[id].mac
    ensures SerialsUnique(next) && MacsUnique(next)
  {
  }

  /** A device that retained history refers to cannot be purged. */
  lemma DeviceStepKeepsReferences(db: Db, op: DeviceOp)
    requires ReferencesSound(db) && ApplyDevice(db, op).Success?
    ensures ReferencesSound(ApplyDevice(db, op).value)
  {
    var next := ApplyDevice(db, op).value;
    DeviceFootprint(db, op);
    if op.PurgeDevice? {
      PurgeKeepsReferences(db, op.deviceId);
    } else {
      assert db.devices.Keys <= next.devices.Keys && next.tokens == db.tokens;
      assert forall id :: id in db.policies && TargetExists(db, db.policies[id].def) ==>
        TargetExists(next, db.policies[id].def);
    }
  }

  lemma PurgeKeepsReferences(db: Db, id: int)
    requires ReferencesSound(db) && Purge(db, id).Success?
    ensures ReferencesSound(Purge(db, id).value)
  {
  }

  lemma TokenStepKeepsHashes(db: Db, op: TokenOp)
    requires HashesUnique(db) && ApplyToken(db, op).Success?
    ensures HashesUnique(ApplyToken(db, op).value)
  {
  }

  lemma TokenStepKeepsReferences(db: Db, op: TokenOp)
    requires ReferencesSound(db) && ApplyToken(db, op).Success?
    ensures ReferencesSound(ApplyToken(db, op).value)
  {
    TokenFootprint(db, op);
    var next := ApplyToken(db, op).value;
    assert forall id :: id in db.policies && TargetExists(db, db.policies[id].def) ==>
      TargetExists(next, next.policies[id].def);
  }

  lemma TokenStepKeepsSound(cfg: Config, w: World, op: TokenOp)
    requires Sound(cfg, w) && ApplyToken(w.db, op).Success?
    ensures Sound(cfg, w.(db := ApplyToken(w.db, op).value))
  {
    var db, next := w.db, ApplyToken(w.db, op).value;
    TokenFootprint(db, op);
    TokenStepKeepsHashes(db, op);
    TokenStepKeepsReferences(db, op);
    PoliciesUntouched(db, next);
    ReleasesUntouched(cfg, db, next, w.objects);
    OffersUntouched(db, next);
  }

  lemma PolicyStepKeepsPolicies(db: Db, op: PolicyOp)
    requires PoliciesSound(db) && ApplyPolicy(db, op).Success?
    ensures PoliciesSound(ApplyPolicy(db, op).value)
  {
    match op
    case AddPolicy(def, priority) => CreateKeepsSound(db, def, priority);
    case EditPolicy(id, edit) => UpdateKeepsSound(db, id, edit);
    case ActivatePolicy(id, isActive) => SetActiveKeepsSound(db, id, isActive);
    case RetirePolicy(id, now) => ArchiveKeepsSound(db, id, now);
    case ReinstatePolicy(id) => RestoreKeepsSound(db, id);
  }

  lemma PolicyStepKeepsReferences(db: Db, op: PolicyOp)
    requires ReferencesSound(db) && ApplyPolicy(db, op).Success?
    ensures ReferencesSound(ApplyPolicy(db, op).value)
  {
    PolicyFootprint(db, op);
    var next := ApplyPolicy(db, op).value;
    forall id | id in next.policies
      ensures TargetExists(db, next.policies[id].def)
    {
      if op.EditPolicy? && id == op.policyId {
        UpdateKeepsIdentity(db, id, op.edit);
      }
    }
  }

  lemma PolicyStepKeepsSound(cfg: Config, w: World, op: PolicyOp)
    requires Sound(cfg, w) && ApplyPolicy(w.db, op).Success?
    ensures Sound(cfg, w.(db := ApplyPolicy(w.db, op).value))
  {
    var db, next := w.db, ApplyPolicy(w.db, op).value;
    PolicyFootprint(db, op);
    PolicyStepKeepsPolicies(db, op);
    PolicyStepKeepsReferences(db, op);
    ReleasesUntouched(cfg, db, next, w.objects);
    DevicesUntouched(db, next);
    OffersUntouched(db, next);
  }

  lemma ReleaseStepKeepsSound(cfg: Config, w: World, op: ReleaseOp)
    requires Sound(cfg, w)
    ensures Sound(cfg, w.(db := Kept(w.db, ApplyRelease(cfg, w, op))))
  {
    var db, next := w.db, Kept(w.db, ApplyRelease(cfg, w, op));
    ReleaseFootprint(cfg, w, op);
    if next != db {
      var id, status :| StatusChanged(db, next, id, status);
      PoliciesUntouched(db, next);
      StatusKeepsSound(cfg, db, w.objects, id, status);
      DevicesUntouched(db, next);
      OffersUntouched(db, next);
      StatusKeepsReferences(db, id, status);
    }
  }

  lemma StatusKeepsReferences(db: Db, id: int, status: ReleaseStatus)
    requires ReferencesSound(db) && id in db.releases
    ensures ReferencesSound(WithStatus(db, id, status))
  {
  }

  lemma UploadStepKeepsSound(cfg: Config, w: World, typeId: int, version: string, u: Upload, f: Faults)
    requires Sound(cfg, w)
    ensures
      var o := CreateRelease(cfg, w.db, w.objects, typeId, version, u, f);
      Sound(cfg, w.(db := o.db, objects := o.objects))
  {
    var next := CreateRelease(cfg, w.db, w.objects, typeId, version, u, f).db;
    UploadKeepsSound(cfg, w.db, w.objects, typeId, version, u, f);
    UploadFootprint(cfg, w, typeId, version, u, f);
    PoliciesUntouched(w.db, next);
    DevicesUntouched(w.db, next);
    OffersUntouched(w.db, next);
  }

  lemma UploadFootprint(cfg: Config, w: World, typeId: int, version: string, u: Upload, f: Faults)
    requires ReleasesSound(cfg, w.db, w.objects)
    ensures
      var o := CreateRelease(cfg, w.db, w.objects, typeId, version, u, f);
      && o.db == w.db.(releases := o.db.releases, nextId := o.db.nextId) && w.db.nextId <= o.db.nextId
      && OwnedUnchanged(w.db, w.objects, o.objects)
      && forall id :: id in w.db.releases ==> id in o.db.releases && o.db.releases[id] == w.db.releases[id]
  {
    UploadSparesOthers(cfg, w.db, w.objects, typeId, version, u, f);
    UploadAddsOneRow(cfg, w.db, w.objects, typeId, version, u, f) by {
      assert forall id :: id in w.db.releases ==> ReleaseSound(cfg, w.db, w.objects, id);
    }
  }

  /** Requests change evidence only; references and uniqueness follow. */
  lemma EvidenceStepKeepsSound(cfg: Config, w: World, next: Db)
    requires Sound(cfg, w) && OnlyEvidenceChanged(w.db, next) && OffersUnique(next)
    requires forall a :: a in next.attempts ==> a.deviceId in next.devices && a.releaseId in next.releases
    ensures Sound(cfg, w.(db := next))
  {
    EvidenceKeepsSound(cfg, w.db, next, w.objects);
    EvidenceKeepsReferences(w.db, next);
  }

  lemma EvidenceKeepsReferences(db: Db, next: Db)
    requires ReferencesSound(db) && MacsUnique(db) && OnlyEvidenceChanged(db, next)
    requires forall a :: a in next.attempts ==> a.deviceId in next.devices && a.releaseId in next.releases
    ensures ReferencesSound(next) && MacsUnique(next)
  {
    assert forall id :: id in db.policies && TargetExists(db, db.policies[id].def) ==>
      TargetExists(next, next.policies[id].def);
  }

  lemma OfferKeepsAttempts(db: Db, id: int, r: Release)
    requires id in db.devices && r.id in db.releases && OffersUnique(db)
    requires forall a :: a in db.attempts ==> a.deviceId in db.devices && a.releaseId in db.releases
    ensures
      var next := WithOffer(db, id, r);
      OffersUnique(next)
      && forall a :: a in next.attempts ==> a.deviceId in next.devices && a.releaseId in next.releases
  {
    if !AlreadyOffered(db, id, r.version) {
      assert forall i :: 0 <= i < |db.attempts| ==> db.attempts[i] in db.attempts;
    }
  }

  lemma PollKeepsAttempts(
    hash: string -> string, db: Db, objects: Objects, req: Request, allowed: bool, now: int, reachable: bool,
    next: Db, response: Response)
    requires PoliciesSound(db) && SerialsUnique(db) && OffersUnique(db)
    requires forall a :: a in db.attempts ==> a.deviceId in db.devices && a.releaseId in db.releases
    requires Polls(hash, db, objects, req, allowed, now, reachable, next, response)
    ensures OffersUnique(next)
    ensures forall a :: a in next.attempts ==> a.deviceId in next.devices && a.releaseId in next.releases
  {
    IdentifyIsProof(db, hash, req.credentials);
    PollChangesEvidenceOnly(hash, db, objects, req, allowed, now, reachable, next, response);
    if response.ManifestServed? {
      var id, checked, d := ServedMeansOffered(hash, db, objects, req, allowed, now, reachable, next, response);
      OfferIsEntitled(checked, id, req.code, req.platform, now, d);
      OfferKeepsAttempts(checked, id, response.release);
    } else {
      assert next.attempts == db.attempts;
    }
  }

  lemma PollStepKeepsSound(
    cfg: Config, hash: string -> string, w: World, req: Request, allowed: bool, now: int, reachable: bool,
    next: Db, response: Response)
    requires Sound(cfg, w) && Polls(hash, w.db, w.objects, req, allowed, now, reachable, next, response)
    ensures Sound(cfg, w.(db := next))
  {
    PollChangesEvidenceOnly(hash, w.db, w.objects, req, allowed, now, reachable, next, response);
    PollKeepsAttempts(hash, w.db, w.objects, req, allowed, now, reachable, next, response);
    EvidenceStepKeepsSound(cfg, w, next);
  }

  lemma StepKeepsSound(cfg: Config, hash: string -> string, w: World, op: Op, w': World)
    requires Sound(cfg, w) && Next(cfg, hash, w, op, w')
    ensures Sound(cfg, w')
  {
    match op
    case OnType(o) => if ApplyType(w.db, o).Success? { TypeStepKeepsSound(cfg, w, o); }
    case OnDevice(o) => if ApplyDevice(w.db, o).Success? { DeviceStepKeepsSound(cfg, w, o); }
    case OnToken(o) => if ApplyToken(w.db, o).Success? { TokenStepKeepsSound(cfg, w, o); }
    case OnPolicy(o) => if ApplyPolicy(w.db, o).Success? { PolicyStepKeepsSound(cfg, w, o); }
    case OnRelease(o) => ReleaseStepKeepsSound(cfg, w, o);
    case UploadRelease(typeId, version, upload, faults, settings) =>
      SettingsDoNotMatter(cfg, settings, w.db, w.objects);
      UploadStepKeepsSound(Under(cfg, settings), w, typeId, version, upload, faults);
      SettingsDoNotMatter(cfg, settings, w'.db, w'.objects);
    case Poll(req, allowed, now, reachable, response) =>
      PollStepKeepsSound(cfg, hash, w, req, allowed, now, reachable, w'.db, response);
    case Download(req, version, filename, allowed, now, reachable, response) =>
      DownloadChangesEvidenceOnly(
        hash, w.db, w.objects, req, version, filename, allowed, now, reachable, w'.db, response);
      IdentifyIsProof(w.db, hash, req.credentials);
      EvidenceStepKeepsSound(cfg, w, w'.db);
    case CompleteDownload(ticket, records) => CompletionKeepsSound(cfg, w, ticket, records);
  }

  lemma CompletionKeepsSound(cfg: Config, w: World, ticket: Ticket, records: bool)
    requires Sound(cfg, w)
    ensures Sound(cfg, w.(db := Completed(w.db, ticket, records)))
  {
    CompletionFootprint(w.db, ticket, records);
    CompletionKeepsAttempts(w.db, ticket, records);
    EvidenceStepKeepsSound(cfg, w, Completed(w.db, ticket, records));
  }

  lemma CompletionKeepsAttempts(db: Db, ticket: Ticket, records: bool)
    requires OffersUnique(db)
    requires forall a :: a in db.attempts ==> a.deviceId in db.devices && a.releaseId in db.releases
    ensures
      var next := Completed(db, ticket, records);
      OffersUnique(next)
      && forall a :: a in next.attempts ==> a.deviceId in next.devices && a.releaseId in next.releases
  {
  }

  /* ----- runs ----- */

  ghost predicate StepAt(cfg: Config, hash: string -> string, worlds: seq<World>, ops: seq<Op>, k: nat)
    requires |worlds| == |ops| + 1 && k < |ops|
  {
    Next(cfg, hash, worlds[k], ops[k], worlds[k + 1])
  }

  /** A run: consecutive worlds joined by one call each, from any first world. */
  ghost predicate IsRun(cfg: Config, hash: string -> string, worlds: seq<World>, ops: seq<Op>) {
    && |worlds| == |ops| + 1
    && forall k: nat :: k < |ops| ==> StepAt(cfg, hash, worlds, ops, k)
  }

  lemma CallKeepsSound(cfg: Config, hash: string -> string, worlds: seq<World>, ops: seq<Op>, k: nat)
    requires IsRun(cfg, hash, worlds, ops) && 0 < k < |worlds| && Sound(cfg, worlds[k - 1])
    ensures Sound(cfg, worlds[k])
  {
    assert StepAt(cfg, hash, worlds, ops, k - 1);
    StepKeepsSound(cfg, hash, worlds[k - 1], ops[k - 1], worlds[k]);
  }

  /** Every state of every run from empty tables is sound. */
  lemma {:induction false} RunIsSound(cfg: Config, hash: string -> string, worlds: seq<World>, ops: seq<Op>, i: nat)
    requires IsRun(cfg, hash, worlds, ops) && worlds[0] == INITIAL && i < |worlds|
    ensures Sound(cfg, worlds[i])
    decreases i
  {
    if i > 0 {
      RunIsSound(cfg, hash, worlds, ops, i - 1);
      CallKeepsSound(cfg, hash, worlds, ops, i);
    }
  }

  /** No reachable state has a read-time policy conflict, for any device at any
      instant, whatever calls of whatever kind were made before. */
  lemma ConflictIsUnreachable(
    cfg: Config, hash: string -> string, worlds: seq<World>, ops: seq<Op>, i: nat,
    deviceId: int, typeId: int, now: int)
    requires IsRun(cfg, hash, worlds, ops) && worlds[0] == INITIAL && i < |worlds|
    ensures !Resolve(worlds[i].db.policies, deviceId, typeId, now).conflict
  {
    RunIsSound(cfg, hash, worlds, ops, i);
    ResolveNeverConflicts(worlds[i].db, deviceId, typeId, now);
  }

  /** No call ever writes the expiry column of a token, so that it is not tested makes
      no difference in any reachable state. */
  lemma NoTokenExpires(
    cfg: Config, hash: string -> string, worlds: seq<World>, ops: seq<Op>, i: nat, now: int)
    requires IsRun(cfg, hash, worlds, ops) && worlds[0] == INITIAL && i < |worlds|
    ensures forall t :: t in worlds[i].db.tokens ==> !Expired(worlds[i].db.tokens[t], now)
    ensures SerialsUnique(worlds[i].db) && ExpiryHonoured(worlds[i].db, hash, now)
  {
    RunIsSound(cfg, hash, worlds, ops, i);
    NothingExpired(worlds[i].db, hash, now);
  }

  lemma NothingExpired(db: Db, hash: string -> string, now: int)
    requires SerialsUnique(db) && forall t :: t in db.tokens ==> !Expired(db.tokens[t], now)
    ensures ExpiryHonoured(db, hash, now)
  {
    forall c, id | Identify(db, hash, c) == Success(id)
      ensures ProvesUnexpired(db, hash, c, id, now)
    {
      IdentifyIsProof(db, hash, c);
      var t :| Holds(db, id, t, hash(c.token.value));
    }
  }

  /** In no reachable state do two releases share an object. */
  lemma ObjectsHaveOneOwner(
    cfg: Config, hash: string -> string, worlds: seq<World>, ops: seq<Op>, i: nat, r: int, q: int, key: string)
    requires IsRun(cfg, hash, worlds, ops) && worlds[0] == INITIAL && i < |worlds|
    requires r in worlds[i].db.releases && q in worlds[i].db.releases
    requires Owns(worlds[i].db.releases[r], key) && Owns(worlds[i].db.releases[q], key)
    ensures r == q
  {
    RunIsSound(cfg, hash, worlds, ops, i);
    KeysBelongToOneRelease(cfg, worlds[i].db, worlds[i].objects, r, q, key);
  }

  /** In every reachable state every release is intact, whatever its status. */
  lemma ReleasesAreIntact(
    cfg: Config, hash: string -> string, worlds: seq<World>, ops: seq<Op>, i: nat, id: int)
    requires IsRun(cfg, hash, worlds, ops) && worlds[0] == INITIAL && i < |worlds|
    requires id in worlds[i].db.releases
    ensures Intact(cfg, worlds[i].db, worlds[i].objects, worlds[i].db.releases[id])
  {
    RunIsSound(cfg, hash, worlds, ops, i);
    SoundReleasesAreIntact(cfg, worlds[i].db, worlds[i].objects, id);
  }

  /* ----- releases and their objects over time ----- */

  /** A release row keeps everything but its status, and its objects their bytes. */
  ghost predicate ReleaseStays(w: World, w': World, id: int)
    requires id in w.db.releases
  {
    && id in w'.db.releases
    && w'.db.releases[id] == w.db.releases[id].(status := w'.db.releases[id].status)
    && forall key :: Owns(w.db.releases[id], key) && key in w.objects ==>
         key in w'.objects && w'.objects[key] == w.objects[key]
  }

  /** Only the lifecycle and uploads write release rows, and only uploads objects. */
  lemma OtherStepKeepsReleases(cfg: Config, hash: string -> string, w: World, op: Op, w': World)
    requires Sound(cfg, w) && Next(cfg, hash, w, op, w') && !op.OnRelease? && !op.UploadRelease?
    ensures w'.db.releases == w.db.releases && w'.objects == w.objects
  {
    match op
    case OnType(o) => TypeFootprint(w.db, o);
    case OnDevice(o) => DeviceFootprint(w.db, o);
    case OnToken(o) => TokenFootprint(w.db, o);
    case OnPolicy(o) => PolicyFootprint(w.db, o);
    case Poll(req, allowed, now, reachable, response) =>
      PollChangesEvidenceOnly(hash, w.db, w.objects, req, allowed, now, reachable, w'.db, response);
    case Download(req, version, filename, allowed, now, reachable, response) =>
      DownloadChangesEvidenceOnly(
        hash, w.db, w.objects, req, version, filename, allowed, now, reachable, w'.db, response);
    case CompleteDownload(ticket, records) => CompletionFootprint(w.db, ticket, records);
  }

  lemma StatusStepKeepsRelease(cfg: Config, w: World, op: ReleaseOp, id: int)
    requires id in w.db.releases
    ensures ReleaseStays(w, w.(db := Kept(w.db, ApplyRelease(cfg, w, op))), id)
  {
    ReleaseFootprint(cfg, w, op);
  }

  lemma UploadStepKeepsRelease(
    cfg: Config, w: World, typeId: int, version: string, u: Upload, f: Faults, id: int)
    requires ReleasesSound(cfg, w.db, w.objects) && id in w.db.releases
    ensures
      var o := CreateRelease(cfg, w.db, w.objects, typeId, version, u, f);
      ReleaseStays(w, w.(db := o.db, objects := o.objects), id)
  {
    UploadFootprint(cfg, w, typeId, version, u, f);
  }

  lemma StepKeepsRelease(cfg: Config, hash: string -> string, w: World, op: Op, w': World, id: int)
    requires Sound(cfg, w) && Next(cfg, hash, w, op, w') && id in w.db.releases
    ensures ReleaseStays(w, w', id)
  {
    if op.OnRelease? {
      StatusStepKeepsRelease(cfg, w, op.releaseOp, id);
    } else if op.UploadRelease? {
      SettingsDoNotMatter(cfg, op.settings, w.db, w.objects);
      UploadStepKeepsRelease(Under(cfg, op.settings), w, op.typeId, op.version, op.upload, op.faults, id);
    } else {
      OtherStepKeepsReleases(cfg, hash, w, op, w');
    }
  }

  lemma StayingAddsUp(a: World, b: World, c: World, id: int)
    requires id in a.db.releases && ReleaseStays(a, b, id) && ReleaseStays(b, c, id)
    ensures ReleaseStays(a, c, id)
  {
  }

  lemma CallKeepsRelease(cfg: Config, hash: string -> string, worlds: seq<World>, ops: seq<Op>, k: nat, id: int)
    requires IsRun(cfg, hash, worlds, ops) && worlds[0] == INITIAL && 0 < k < |worlds|
    requires id in worlds[k - 1].db.releases
    ensures ReleaseStays(worlds[k - 1], worlds[k], id)
  {
    RunIsSound(cfg, hash, worlds, ops, k - 1);
    assert StepAt(cfg, hash, worlds, ops, k - 1);
    StepKeepsRelease(cfg, hash, worlds[k - 1], ops[k - 1], worlds[k], id);
  }

  /** A committed release is immutable for the rest of the run: later uploads, failed
      or not, renamings and every other call leave its row and its objects alone. */
  lemma {:induction false} ReleasesAreImmutable(
    cfg: Config, hash: string -> string, worlds: seq<World>, ops: seq<Op>, i: nat, j: nat, id: int)
    requires IsRun(cfg, hash, worlds, ops) && worlds[0] == INITIAL && i <= j < |worlds|
    requires id in worlds[i].db.releases
    ensures ReleaseStays(worlds[i], worlds[j], id)
    decreases j
  {
    if i < j {
      ReleasesAreImmutable(cfg, hash, worlds, ops, i, j - 1, id);
      CallKeepsRelease(cfg, hash, worlds, ops, j, id);
      StayingAddsUp(worlds[i], worlds[j - 1], worlds[j], id);
    }
  }

  /** The store holds the uploaded manifest byte for byte, and an object of the
      uploaded artifact's size and checksum, at the keys of the release. */
  ghost predicate StoredAsUploaded(cfg: Config, w: World, id: int, u: Upload) {
    && id in w.db.releases
    && var r := w.db.releases[id];
       && r.artifact.Some? && r.manifest.Some?
       && r.manifest.value.storageKey in w.objects
       && u.manifest == Some(w.objects[r.manifest.value.storageKey])
       && IntactAt(cfg, w.objects, r.artifact.value.storageKey, |u.data|, cfg.md5(u.data))
  }

  lemma StayingKeepsBytes(cfg: Config, w: World, w': World, id: int, u: Upload)
    requires StoredAsUploaded(cfg, w, id, u) && ReleaseStays(w, w', id)
    ensures StoredAsUploaded(cfg, w', id, u)
  {
  }

  lemma UploadStores(cfg: Config, hash: string -> string, w: World, op: Op, w': World)
    requires Sound(cfg, w) && Next(cfg, hash, w, op, w')
    requires op.UploadRelease? && w.db.nextId in w'.db.releases
    ensures StoredAsUploaded(cfg, w', w.db.nextId, op.upload)
  {
    assert w.db.nextId !in w.db.releases by {
      assert forall id :: id in w.db.releases ==> ReleaseSound(cfg, w.db, w.objects, id);
    }
    SettingsDoNotMatter(cfg, op.settings, w.db, w.objects);
    UploadSparesOthers(Under(cfg, op.settings), w.db, w.objects, op.typeId, op.version, op.upload, op.faults);
    UploadHoldsBytes(Under(cfg, op.settings), w.db, w.objects, op.typeId, op.version, op.upload, op.faults);
  }

  lemma UploadStoredAt(cfg: Config, hash: string -> string, worlds: seq<World>, ops: seq<Op>, i: nat)
    requires IsRun(cfg, hash, worlds, ops) && worlds[0] == INITIAL && i < |ops|
    requires ops[i].UploadRelease? && worlds[i].db.nextId in worlds[i + 1].db.releases
    ensures StoredAsUploaded(cfg, worlds[i + 1], worlds[i].db.nextId, ops[i].upload)
  {
    RunIsSound(cfg, hash, worlds, ops, i);
    assert StepAt(cfg, hash, worlds, ops, i);
    UploadStores(cfg, hash, worlds[i], ops[i], worlds[i + 1]);
  }

  /** What was uploaded, if the upload added its row, stays what is stored, at every
      later point of the run. */
  lemma UploadedBytesStay(
    cfg: Config, hash: string -> string, worlds: seq<World>, ops: seq<Op>, i: nat, j: nat)
    requires IsRun(cfg, hash, worlds, ops) && worlds[0] == INITIAL && i < j < |worlds|
    requires ops[i].UploadRelease? && worlds[i].db.nextId in worlds[i + 1].db.releases
    ensures StoredAsUploaded(cfg, worlds[j], worlds[i].db.nextId, ops[i].upload)
  {
    UploadStoredAt(cfg, hash, worlds, ops, i);
    ReleasesAreImmutable(cfg, hash, worlds, ops, i + 1, j, worlds[i].db.nextId);
    StayingKeepsBytes(cfg, worlds[i + 1], worlds[j], worlds[i].db.nextId, ops[i].upload);
  }

  /** Integrity failures are unreachable: in every reachable state an outage means
      that the object store could not be read. */
  lemma OutageMeansStore(
    cfg: Config, hash: string -> string, worlds: seq<World>, ops: seq<Op>, i: nat)
    requires IsRun(cfg, hash, worlds, ops) && worlds[0] == INITIAL && i < |ops|
    ensures ops[i].Poll? && ops[i].response.Unavailable? ==>
              !ops[i].reachable && ops[i].response.outage == StoreUnavailable
    ensures ops[i].Download? && ops[i].response.Unavailable? ==>
              !ops[i].reachable && ops[i].response.outage == StoreUnavailable
  {
    RunIsSound(cfg, hash, worlds, ops, i);
    var w, op := worlds[i], ops[i];
    assert StepAt(cfg, hash, worlds, ops, i);
    if op.Poll? {
      PollOutageMeansStore(cfg, hash, w.db, w.objects, op.req, op.allowed, op.now, op.reachable,
                           worlds[i + 1].db, op.response);
    }
    if op.Download? {
      DownloadOutageMeansStore(cfg, hash, w.db, w.objects, op.req, op.version, op.filename, op.allowed,
                               op.now, op.reachable, worlds[i + 1].db, op.response);
    }
  }
}
