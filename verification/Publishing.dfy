/** What uploading, publishing and withdrawing a release do: to its row, column by
    column, and to what devices are answered. */
module Publishing {
  import opened Wrappers
  import opened Text
  import opened Tables
  import opened Version
  import opened UpdatePath
  import opened ManifestRules
  import opened Policies
  import opened DeviceAuth
  import opened Firmware
  import opened ReleaseSafety
  import opened UpdateDecisions
  import opened Ota
  import opened OtaSafety
  import opened World
  import opened Lifecycle

  /* ----- what an upload has to be ----- */

  /** A parsed manifest passes iff it says what was uploaded and, where signatures are
      checked, the verifier accepts its signature for `version|url|md5|size`. The first
      disagreement is the one reported, and a bad signature comes last. */
  lemma SignatureIsChecked(cfg: Config, raw: bytes, version: string, md5: string, size: nat, url: string)
    requires ParseManifest(cfg.decoders, raw).Success?
    ensures
      var m := ParseManifest(cfg.decoders, raw).value;
      var r := PrepareManifest(cfg, raw, version, md5, size, url);
      var genuine := cfg.verify(m.version + "|" + m.url + "|" + m.md5 + "|" + Render(m.size), m.signatureBytes);
      && (r == Failure(ManifestVersionMismatch) <==> m.version != version)
      && (r == Failure(ManifestMd5Mismatch) <==> m.version == version && m.md5 != md5)
      && (r == Failure(ManifestSizeMismatch) <==> m.version == version && m.md5 == md5 && m.size != size)
      && (r == Failure(ManifestUrlMismatch)
          <==> m.version == version && m.md5 == md5 && m.size == size && m.url != url)
      && (m.version == version && m.md5 == md5 && m.size == size && m.url == url ==>
            r == if !cfg.settings.verifies || genuine then Success(m) else Failure(InvalidSignature))
  {
  }

  /** The checks of an upload, all of them. */
  ghost predicate Acceptable(cfg: Config, db: Db, typeId: int, version: string, u: Upload) {
    && typeId in db.types && db.types[typeId].isActive
    && IsValidVersion(version) && ValidateFilename(u.filename).None?
    && (forall id :: id in db.releases && db.releases[id].typeId == typeId ==> db.releases[id].version != version)
    && 1 <= |u.data| <= 4_194_304
    && u.manifest.Some? && ParseManifest(cfg.decoders, u.manifest.value).Success?
    && var m := ParseManifest(cfg.decoders, u.manifest.value).value;
       && m.version == version && m.md5 == cfg.md5(u.data) && m.size == |u.data|
       && FirmwareUrl(cfg.settings.firmwareBaseUrl, db.types[typeId].code, db.types[typeId].platform, version,
                      u.filename) == Success(m.url)
       && (cfg.settings.verifies ==>
             cfg.verify(m.version + "|" + m.url + "|" + m.md5 + "|" + Render(m.size), m.signatureBytes))
  }

  lemma ManifestPasses(cfg: Config, raw: bytes, version: string, md5: string, size: nat, url: string)
    ensures
      var r := PrepareManifest(cfg, raw, version, md5, size, url);
      r.Success?
      <==> && ParseManifest(cfg.decoders, raw).Success?
           && var m := ParseManifest(cfg.decoders, raw).value;
              && m.version == version && m.md5 == md5 && m.size == size && m.url == url
              && (cfg.settings.verifies ==>
                    cfg.verify(m.version + "|" + m.url + "|" + m.md5 + "|" + Render(m.size), m.signatureBytes))
  {
    if ParseManifest(cfg.decoders, raw).Success? {
      SignatureIsChecked(cfg, raw, version, md5, size, url);
    }
  }

  lemma AcceptablePasses(cfg: Config, db: Db, typeId: int, version: string, u: Upload)
    requires Acceptable(cfg, db, typeId, version, u)
    ensures Prepare(cfg, db, typeId, version, u).Success?
  {
    var t, url := db.types[typeId], ParseManifest(cfg.decoders, u.manifest.value).value.url;
    KeysMirrorPaths(t.code, t.platform, version, u.filename);
    ManifestPasses(cfg, u.manifest.value, version, cfg.md5(u.data), |u.data|, url);
    assert u.manifest.value != [];
    assert ManifestStorageKey(t.code, t.platform, version).Success?;
  }

  lemma PassedIsAcceptable(cfg: Config, db: Db, typeId: int, version: string, u: Upload)
    requires Prepare(cfg, db, typeId, version, u).Success?
    ensures Acceptable(cfg, db, typeId, version, u)
  {
    var t := db.types[typeId];
    var url := FirmwareUrl(cfg.settings.firmwareBaseUrl, t.code, t.platform, version, u.filename).value;
    ManifestPasses(cfg, u.manifest.value, version, cfg.md5(u.data), |u.data|, url);
  }

  /** An upload gets past its checks iff it is acceptable. */
  lemma UploadPassesIff(cfg: Config, db: Db, typeId: int, version: string, u: Upload)
    ensures Prepare(cfg, db, typeId, version, u).Success? <==> Acceptable(cfg, db, typeId, version, u)
  {
    if Prepare(cfg, db, typeId, version, u).Success? {
      PassedIsAcceptable(cfg, db, typeId, version, u);
    }
    if Acceptable(cfg, db, typeId, version, u) {
      AcceptablePasses(cfg, db, typeId, version, u);
    }
  }

  /** It commits iff moreover every write, the read-back and the commit succeed, and an
      artifact that is itself called manifest.json has survived the manifest's write. */
  lemma UploadCommitsIff(cfg: Config, db: Db, objects: Objects, typeId: int, version: string, u: Upload, f: Faults)
    ensures CreateRelease(cfg, db, objects, typeId, version, u, f).error.None?
            <==> && Acceptable(cfg, db, typeId, version, u)
                 && f.artifactPut.Completes? && f.manifestPut.Completes? && f.readBack && f.commits
                 && (u.filename == "manifest.json" ==>
                       && |u.manifest.value| == |u.data|
                       && cfg.md5(u.manifest.value) == cfg.md5(u.data))
  {
    UploadPassesIff(cfg, db, typeId, version, u);
    if Acceptable(cfg, db, typeId, version, u) {
      PrepareFacts(cfg, db, typeId, version, u);
      var p := Prepare(cfg, db, typeId, version, u).value;
      KeysCoincideIff(db.types[typeId], version, u.filename);
      assert p.manifest.raw == u.manifest.value;
    }
  }

  lemma KeysCoincideIff(t: DeviceType, version: string, filename: string)
    requires ValidateDeviceTypePath(t.code, t.platform).None?
    requires IsValidVersion(version) && ValidateFilename(filename).None?
    ensures filename == "manifest.json"
            <==> (ObjectKey(t.code, t.platform, version, filename)
                  == ObjectKey(t.code, t.platform, version, MANIFEST_FILENAME))
  {
    ValidIsSlashFree(t.code, t.platform, version, filename);
    if ObjectKey(t.code, t.platform, version, filename)
       == ObjectKey(t.code, t.platform, version, MANIFEST_FILENAME) {
      KeysAreInjective(t.code, t.platform, version, filename, t.code, t.platform, version, MANIFEST_FILENAME);
    }
  }

  /** The row of a committed upload, column by column: validated, not published, with
      its signature marked as checked iff it was. */
  lemma UploadedRow(cfg: Config, db: Db, objects: Objects, typeId: int, version: string, u: Upload, f: Faults)
    requires CreateRelease(cfg, db, objects, typeId, version, u, f).error.None?
    ensures Acceptable(cfg, db, typeId, version, u)
    ensures
      var next := CreateRelease(cfg, db, objects, typeId, version, u, f).db;
      var m := ParseManifest(cfg.decoders, u.manifest.value).value;
      && db.nextId in next.releases
      && var r := next.releases[db.nextId];
         && r.id == db.nextId && r.typeId == typeId && r.version == version && r.status.Validated?
         && r.artifact.Some? && r.manifest.Some?
         && r.artifact.value.filename == u.filename
         && r.artifact.value.size == |u.data| && r.artifact.value.md5 == cfg.md5(u.data)
         && r.manifest.value.version == m.version && r.manifest.value.url == m.url
         && r.manifest.value.md5 == m.md5 && r.manifest.value.size == m.size
         && r.manifest.value.signature == m.signature
         && r.manifest.value.signatureVerified == cfg.settings.verifies
  {
    UploadPassesIff(cfg, db, typeId, version, u);
  }

  /* ----- what the lifecycle calls write ----- */

  /** Of all tables only the status of one release was written. */
  ghost predicate OnlyStatusWritten(db: Db, next: Db, id: int, status: ReleaseStatus) {
    && next.types == db.types && next.devices == db.devices && next.tokens == db.tokens
    && next.policies == db.policies && next.attempts == db.attempts
    && next.communications == db.communications && next.nextId == db.nextId
    && id in db.releases && next.releases.Keys == db.releases.Keys
    && next.releases[id].status == status
    && next.releases[id] == db.releases[id].(status := next.releases[id].status)
    && forall j :: j in db.releases && j != id ==> next.releases[j] == db.releases[j]
  }

  ghost predicate Writes(db: Db, r: Result<Db, Code>, id: int, status: ReleaseStatus) {
    r.Success? ==> OnlyStatusWritten(db, r.value, id, status)
  }

  /** Publishing succeeds for a validated or draft release whose artifact is read back
      with the recorded size and checksum and whose signature, where signatures are
      checked, was checked at upload; and it makes the release published. */
  lemma PublishWrites(cfg: Config, db: Db, objects: Objects, id: int, reachable: bool)
    ensures PublishRelease(cfg, db, objects, id, reachable).Success?
            <==> && id in db.releases
                 && (db.releases[id].status.Validated? || db.releases[id].status.Draft?)
                 && db.releases[id].artifact.Some? && db.releases[id].manifest.Some?
                 && (cfg.settings.verifies ==> db.releases[id].manifest.value.signatureVerified)
                 && var a := db.releases[id].artifact.value;
                    && reachable && a.storageKey in objects
                    && |objects[a.storageKey]| == a.size && cfg.md5(objects[a.storageKey]) == a.md5
    ensures Writes(db, PublishRelease(cfg, db, objects, id, reachable), id, Published)
    ensures PublishRelease(cfg, db, objects, id, reachable) == Failure(ReleaseNotFound) <==> id !in db.releases
    ensures PublishRelease(cfg, db, objects, id, reachable) == Failure(InvalidReleaseTransition)
            <==> id in db.releases && !db.releases[id].status.Validated? && !db.releases[id].status.Draft?
  {
  }

  /** The four plain transitions: from which statuses each succeeds, and to which it
      leads. */
  lemma TransitionsWrite(db: Db, id: int)
    ensures MarkDraft(db, id).Success? <==> id in db.releases && db.releases[id].status.Validated?
    ensures Writes(db, MarkDraft(db, id), id, ReleaseStatus.Draft)
    ensures DeprecateRelease(db, id).Success? <==> id in db.releases && db.releases[id].status.Published?
    ensures Writes(db, DeprecateRelease(db, id), id, Deprecated)
    ensures ArchiveRelease(db, id).Success?
            <==> && id in db.releases
                 && (|| db.releases[id].status.Validated? || db.releases[id].status.Draft?
                     || db.releases[id].status.Published? || db.releases[id].status.Deprecated?)
    ensures Writes(db, ArchiveRelease(db, id), id, Archived)
    ensures RestoreRelease(db, id).Success? <==> id in db.releases && db.releases[id].status.Archived?
    ensures Writes(db, RestoreRelease(db, id), id, ReleaseStatus.Draft)
  {
  }

  /* ----- what devices are answered ----- */

  /** A device that has to be offered something: active, enabled, of the release's type
      and on its path, permitted the release by its policy, and known to run nothing,
      nothing readable, or something older. A readable version in the request counts
      before the stored one. */
  ghost predicate Awaits(db: Db, id: int, req: Request, r: Release, now: int) {
    && id in db.devices && r.typeId in db.types && IsValidVersion(r.version)
    && var d, t := db.devices[id], db.types[r.typeId];
       && d.typeId == r.typeId && d.status.Active? && d.otaEnabled
       && req.code == t.code && req.platform == t.platform
       && (var p := Resolve(db.policies, id, r.typeId, now).policy; PolicyUsable(p) && Permits(p, r))
       && var known := if req.reportedVersion.Some? && IsValidVersion(req.reportedVersion.value)
                       then req.reportedVersion else d.currentVersion;
          known.Some? && IsValidVersion(known.value) ==> Key(known.value).Less(Key(r.version))
  }

  /** A manifest is served, of a published release of the type, no older than `r`. */
  ghost predicate OffersAtLeast(db: Db, response: Response, r: Release) {
    && response.ManifestServed? && IsValidVersion(r.version)
    && var q := response.release;
       && q.id in db.releases && db.releases[q.id] == q && q.typeId == r.typeId && q.status.Published?
       && IsValidVersion(q.version) && !Key(q.version).Less(Key(r.version))
  }

  lemma AwaitedIsAvailable(db: Db, seen: Db, checked: Db, id: int, req: Request, r: Release, now: int, d: Decision)
    requires PoliciesSound(db) && r.id in db.releases && db.releases[r.id] == r && r.status.Published?
    requires Awaits(db, id, req, r, now)
    requires seen == Seen(db, id, now) && checked == Checked(seen, id, req.reportedVersion, now)
    requires PoliciesSound(checked) && Decides(checked, id, req.code, req.platform, now, d)
    ensures d.available && d.release.Some? && IsPublished(checked, r.typeId, d.release.value)
    ensures !Key(d.release.value.version).Less(Key(r.version))
  {
    var p := Resolve(checked.policies, id, r.typeId, now).policy;
    ResolveNeverConflicts(checked, id, r.typeId, now);
    ResolvedPolicyIsSound(checked, id, r.typeId, now);
    assert CheckEligibility(checked, checked.devices[id], req.code, req.platform).None?;
    assert IsCandidate(checked, r.typeId, p, r);
    var best := d.release.value;
    if d.knownVersion.Some? {
      LessIsStrictTotal(Key(d.knownVersion.value), Key(r.version), Key(best.version));
      LessIsStrictTotal(Key(r.version), Key(best.version), Key(best.version));
    }
  }

  lemma DecisionOfPoll(
    hash: string -> string, db: Db, objects: Objects, req: Request, now: int, next: Db, response: Response, id: int)
    returns (seen: Db, checked: Db, d: Decision)
    requires PoliciesSound(db) && SerialsUnique(db) && Identify(db, hash, req.credentials) == Success(id)
    requires Polls(hash, db, objects, req, true, now, true, next, response)
    ensures id in db.devices && PoliciesSound(checked)
    ensures seen == Seen(db, id, now) && checked == Checked(seen, id, req.reportedVersion, now)
    ensures Decides(checked, id, req.code, req.platform, now, d)
    ensures AnswersPoll(checked, objects, id, d, true, next, response)
  {
    IdentifyIsProof(db, hash, req.credentials);
    seen := Seen(db, id, now);
    checked := Checked(seen, id, req.reportedVersion, now);
    d :| Decides(checked, id, req.code, req.platform, now, d)
         && AnswersPoll(checked, objects, id, d, true, next, response);
  }

  /** While a release is published, every poll of a device that awaits it, let past by
      the limiter while the store can be read, is served a manifest, of that release or
      of one at least as new. */
  lemma AwaitedIsOffered(
    cfg: Config, hash: string -> string, db: Db, objects: Objects, req: Request, now: int, next: Db,
    response: Response, id: int, r: Release)
    requires StateSound(cfg, db, objects) && r.id in db.releases && db.releases[r.id] == r && r.status.Published?
    requires Polls(hash, db, objects, req, true, now, true, next, response)
    requires Identify(db, hash, req.credentials) == Success(id) && Awaits(db, id, req, r, now)
    ensures OffersAtLeast(db, response, r)
  {
    var seen, checked, d := DecisionOfPoll(hash, db, objects, req, now, next, response, id);
    AwaitedIsAvailable(db, seen, checked, id, req, r, now, d);
    ManifestOfRelease(cfg, db, objects, d.release.value);
  }

  /** A release that is not published is offered to nobody. */
  lemma UnpublishedIsNotOffered(
    hash: string -> string, db: Db, objects: Objects, req: Request, allowed: bool, now: int, reachable: bool,
    next: Db, response: Response, id: int)
    requires PoliciesSound(db) && SerialsUnique(db) && id in db.releases && !db.releases[id].status.Published?
    requires Polls(hash, db, objects, req, allowed, now, reachable, next, response) && response.ManifestServed?
    ensures response.release.id != id
  {
    var who, checked, d := ServedMeansOffered(hash, db, objects, req, allowed, now, reachable, next, response);
    OfferIsEntitled(checked, who, req.code, req.platform, now, d);
  }

  lemma ResolvedIsDeliverable(db: Db, typeId: int, version: string, filename: string)
    ensures
      var found := ResolveRelease(db, typeId, version, filename);
      found.Some? ==> exists id :: && id in db.releases && db.releases[id] == found.value
                                   && (found.value.status.Published? || found.value.status.Deprecated?)
  {
  }

  lemma DeliveredIsDeliverable(
    hash: string -> string, db: Db, objects: Objects, req: Request, version: string, filename: string,
    allowed: bool, now: int, reachable: bool, next: Db, response: Response)
    requires PoliciesSound(db) && SerialsUnique(db)
    requires Downloads(hash, db, objects, req, version, filename, allowed, now, reachable, next, response)
    ensures response.FirmwareServed? ==>
              var r := response.release;
              && (exists id :: id in db.releases && db.releases[id] == r)
              && (r.status.Published? || r.status.Deprecated?)
  {
    IdentifyIsProof(db, hash, req.credentials);
    if response.FirmwareServed? {
      var who := Identify(db, hash, req.credentials).value;
      ResolvedIsDeliverable(next, next.devices[who].typeId, version, filename);
    }
  }

  /** And no download is answered with a release that is neither published nor
      deprecated: it does not even resolve. */
  lemma WithdrawnIsNotDelivered(
    cfg: Config, hash: string -> string, db: Db, objects: Objects, req: Request, version: string,
    filename: string, allowed: bool, now: int, reachable: bool, next: Db, response: Response, id: int)
    requires StateSound(cfg, db, objects) && id in db.releases
    requires !db.releases[id].status.Published? && !db.releases[id].status.Deprecated?
    requires Downloads(hash, db, objects, req, version, filename, allowed, now, reachable, next, response)
    ensures response.FirmwareServed? ==> response.release.id != id
    ensures db.releases[id].artifact.Some?
    ensures ResolveRelease(db, db.releases[id].typeId, db.releases[id].version,
                           db.releases[id].artifact.value.filename).None?
  {
    assert ReleaseSound(cfg, db, objects, id);
    UndeliverableIsUnknown(db, db.releases[id]);
    DeliveredIsDeliverable(hash, db, objects, req, version, filename, allowed, now, reachable, next, response);
    if response.FirmwareServed? {
      var j :| j in db.releases && db.releases[j] == response.release;
      assert ReleaseSound(cfg, db, objects, j);
    }
  }

  /* ----- over runs ----- */

  /** How one call moves the status of a release. */
  ghost predicate StatusMoves(op: Op, id: int, from: ReleaseStatus, to: ReleaseStatus) {
    || to == from
    || (&& op.OnRelease? && op.releaseOp.releaseId == id
        && match op.releaseOp
           case Draft(_) => from.Validated? && to.Draft?
           case Publish(_, _, _) => (from.Validated? || from.Draft?) && to.Published?
           case Deprecate(_) => from.Published? && to.Deprecated?
           case Archive(_) => !from.Uploaded? && !from.Archived? && to.Archived?
           case Restore(_) => from.Archived? && to.Draft?)
  }

  lemma ReleaseOpMovesStatus(cfg: Config, w: World, op: ReleaseOp, id: int)
    requires id in w.db.releases
    ensures
      var next := Kept(w.db, ApplyRelease(cfg, w, op));
      id in next.releases && StatusMoves(OnRelease(op), id, w.db.releases[id].status, next.releases[id].status)
  {
    TransitionsWrite(w.db, op.releaseId);
    if op.Publish? {
      PublishWrites(Under(cfg, op.settings), w.db, w.objects, op.releaseId, op.reachable);
    }
  }

  /** Only the five lifecycle calls move a status, each along its own arrows. */
  lemma StepMovesStatus(cfg: Config, hash: string -> string, w: World, op: Op, w': World, id: int)
    requires Sound(cfg, w) && Next(cfg, hash, w, op, w') && id in w.db.releases
    ensures id in w'.db.releases && StatusMoves(op, id, w.db.releases[id].status, w'.db.releases[id].status)
  {
    if op.OnRelease? {
      ReleaseOpMovesStatus(cfg, w, op.releaseOp, id);
    } else if op.UploadRelease? {
      SettingsDoNotMatter(cfg, op.settings, w.db, w.objects);
      UploadFootprint(Under(cfg, op.settings), w, op.typeId, op.version, op.upload, op.faults);
    } else {
      OtherStepKeepsReleases(cfg, hash, w, op, w');
    }
  }

  ghost predicate StatusMovesAt(worlds: seq<World>, ops: seq<Op>, k: nat, id: int)
    requires |worlds| == |ops| + 1 && k < |ops|
  {
    && id in worlds[k].db.releases && id in worlds[k + 1].db.releases
    && StatusMoves(ops[k], id, worlds[k].db.releases[id].status, worlds[k + 1].db.releases[id].status)
  }

  lemma CallMovesStatus(cfg: Config, hash: string -> string, worlds: seq<World>, ops: seq<Op>, k: nat, id: int)
    requires IsRun(cfg, hash, worlds, ops) && worlds[0] == INITIAL && k < |ops| && id in worlds[k].db.releases
    ensures StatusMovesAt(worlds, ops, k, id)
  {
    RunIsSound(cfg, hash, worlds, ops, k);
    assert StepAt(cfg, hash, worlds, ops, k);
    StepMovesStatus(cfg, hash, worlds[k], ops[k], worlds[k + 1], id);
  }

  /** A call of the run that takes the release out of publication. */
  ghost predicate Withdraws(op: Op, id: int) {
    op.OnRelease? && op.releaseOp.releaseId == id && (op.releaseOp.Deprecate? || op.releaseOp.Archive?)
  }

  lemma {:induction false} PublishedStays(
    cfg: Config, hash: string -> string, worlds: seq<World>, ops: seq<Op>, i: nat, j: nat, id: int)
    requires IsRun(cfg, hash, worlds, ops) && worlds[0] == INITIAL && i <= j < |worlds|
    requires id in worlds[i].db.releases && worlds[i].db.releases[id].status.Published?
    requires forall k: nat :: i <= k < j ==> !Withdraws(ops[k], id)
    ensures id in worlds[j].db.releases && worlds[j].db.releases[id].status.Published?
    decreases j
  {
    if i < j {
      PublishedStays(cfg, hash, worlds, ops, i, j - 1, id);
      CallMovesStatus(cfg, hash, worlds, ops, j - 1, id);
    }
  }

  /** The call at `k` publishes the release. */
  ghost predicate PublishesAt(worlds: seq<World>, ops: seq<Op>, k: nat, id: int)
    requires |worlds| == |ops| + 1 && k < |ops|
  {
    && ops[k].OnRelease? && ops[k].releaseOp.Publish? && ops[k].releaseOp.releaseId == id
    && id in worlds[k].db.releases && id in worlds[k + 1].db.releases
    && !worlds[k].db.releases[id].status.Published? && worlds[k + 1].db.releases[id].status.Published?
  }

  /** Publication is what gets a release to the devices. In every run, from a successful
      publication on and until the release is deprecated or archived, every poll of a
      device that awaits it, let past by the limiter while the store can be read, is
      served a manifest: of that release, or of one at least as new. */
  lemma PublishedIsOffered(
    cfg: Config, hash: string -> string, worlds: seq<World>, ops: seq<Op>, i: nat, j: nat, id: int, deviceId: int)
    requires IsRun(cfg, hash, worlds, ops) && worlds[0] == INITIAL && i < j < |ops|
    requires PublishesAt(worlds, ops, i, id) && forall k: nat :: i < k < j ==> !Withdraws(ops[k], id)
    requires ops[j].Poll? && ops[j].allowed && ops[j].reachable && Authenticates(worlds[j].db, hash, ops[j], deviceId)
    requires id in worlds[j].db.releases ==>
               Awaits(worlds[j].db, deviceId, ops[j].req, worlds[j].db.releases[id], ops[j].now)
    ensures id in worlds[j].db.releases && OffersAtLeast(worlds[j].db, ops[j].response, worlds[j].db.releases[id])
  {
    PublishedStays(cfg, hash, worlds, ops, i + 1, j, id);
    RunIsSound(cfg, hash, worlds, ops, j);
    assert StepAt(cfg, hash, worlds, ops, j);
    var w, r := worlds[j], worlds[j].db.releases[id];
    assert ReleaseSound(cfg, w.db, w.objects, id);
    AwaitedIsOffered(cfg, hash, w.db, w.objects, ops[j].req, ops[j].now, worlds[j + 1].db, ops[j].response,
                     deviceId, r);
  }

  /** The answer hands out the release: its manifest, or its bytes. */
  ghost predicate Serves(op: Op, id: int) {
    || (op.Poll? && op.response.ManifestServed? && op.response.release.id == id)
    || (op.Download? && op.response.FirmwareServed? && op.response.release.id == id)
  }

  lemma {:induction false} UnpublishedUntil(
    cfg: Config, hash: string -> string, worlds: seq<World>, ops: seq<Op>, i: nat, j: nat, id: int)
    requires IsRun(cfg, hash, worlds, ops) && worlds[0] == INITIAL && i <= j < |worlds|
    requires id in worlds[i].db.releases
    requires !worlds[i].db.releases[id].status.Published? && !worlds[i].db.releases[id].status.Deprecated?
    requires forall k: nat :: i <= k < j ==> !PublishesAt(worlds, ops, k, id)
    ensures id in worlds[j].db.releases
    ensures !worlds[j].db.releases[id].status.Published? && !worlds[j].db.releases[id].status.Deprecated?
    decreases j
  {
    if i < j {
      UnpublishedUntil(cfg, hash, worlds, ops, i, j - 1, id);
      CallMovesStatus(cfg, hash, worlds, ops, j - 1, id);
      assert !PublishesAt(worlds, ops, j - 1, id);
    }
  }

  lemma ServingNeedsStatus(cfg: Config, hash: string -> string, worlds: seq<World>, ops: seq<Op>, j: nat, id: int)
    requires IsRun(cfg, hash, worlds, ops) && worlds[0] == INITIAL && j < |ops| && id in worlds[j].db.releases
    requires Serves(ops[j], id)
    ensures worlds[j].db.releases[id].status.Published? || worlds[j].db.releases[id].status.Deprecated?
  {
    RunIsSound(cfg, hash, worlds, ops, j);
    assert StepAt(cfg, hash, worlds, ops, j);
    var w, op, next := worlds[j], ops[j], worlds[j + 1].db;
    if op.Poll? {
      if !w.db.releases[id].status.Published? {
        UnpublishedIsNotOffered(
          hash, w.db, w.objects, op.req, op.allowed, op.now, op.reachable, next, op.response, id);
      }
    } else if !w.db.releases[id].status.Published? && !w.db.releases[id].status.Deprecated? {
      WithdrawnIsNotDelivered(
        cfg, hash, w.db, w.objects, op.req, op.version, op.filename, op.allowed, op.now, op.reachable, next,
        op.response, id);
    }
  }

  /** And nothing else does. A release that was uploaded, archived, restored or made a
      draft, so that it is neither published nor deprecated, is handed to no device by
      either endpoint until a call has published it again. */
  lemma ServedMeansPublishedSince(
    cfg: Config, hash: string -> string, worlds: seq<World>, ops: seq<Op>, i: nat, j: nat, id: int)
    requires IsRun(cfg, hash, worlds, ops) && worlds[0] == INITIAL && i <= j < |ops|
    requires id in worlds[i].db.releases
    requires !worlds[i].db.releases[id].status.Published? && !worlds[i].db.releases[id].status.Deprecated?
    requires Serves(ops[j], id)
    ensures exists k: nat :: i <= k < j && PublishesAt(worlds, ops, k, id)
  {
    if forall k: nat :: i <= k < j ==> !PublishesAt(worlds, ops, k, id) {
      UnpublishedUntil(cfg, hash, worlds, ops, i, j, id);
      ServingNeedsStatus(cfg, hash, worlds, ops, j, id);
    }
  }

  /* ----- signatures over runs ----- */

  /** The stored manifest says what the row says, and the verifier accepts its signature
      for exactly that version, URL, checksum and size. */
  ghost predicate Genuine(cfg: Config, objects: Objects, row: ManifestRow) {
    && row.storageKey in objects
    && var stored := ParseManifest(cfg.decoders, objects[row.storageKey]);
       && stored.Success?
       && cfg.verify(row.version + "|" + row.url + "|" + row.md5 + "|" + Render(row.size),
                     stored.value.signatureBytes)
  }

  /** In every reachable state a release whose signature is marked as checked has a
      signature that the verifier accepts, whatever settings are in force by then. */
  lemma MarkedMeansGenuine(cfg: Config, hash: string -> string, worlds: seq<World>, ops: seq<Op>, i: nat, id: int)
    requires IsRun(cfg, hash, worlds, ops) && worlds[0] == INITIAL && i < |worlds|
    requires id in worlds[i].db.releases
    ensures worlds[i].db.releases[id].manifest.Some?
    ensures
      var row := worlds[i].db.releases[id].manifest.value;
      row.signatureVerified ==> Genuine(cfg, worlds[i].objects, row)
  {
    RunIsSound(cfg, hash, worlds, ops, i);
    assert ReleaseSound(cfg, worlds[i].db, worlds[i].objects, id);
  }

  /** Whoever publishes checks signatures. */
  ghost predicate ChecksSignatures(op: Op) {
    op.OnRelease? && op.releaseOp.Publish? ==> op.releaseOp.settings.verifies
  }

  ghost predicate DeliverableIsMarked(db: Db, id: int) {
    id in db.releases && (db.releases[id].status.Published? || db.releases[id].status.Deprecated?) ==>
      db.releases[id].manifest.Some? && db.releases[id].manifest.value.signatureVerified
  }

  lemma PublishedIsMarked(cfg: Config, hash: string -> string, w: World, op: Op, w': World, id: int)
    requires Sound(cfg, w) && Next(cfg, hash, w, op, w') && id in w.db.releases && id in w'.db.releases
    requires ChecksSignatures(op) && op.OnRelease? && op.releaseOp.Publish? && op.releaseOp.releaseId == id
    requires w'.db.releases[id].status != w.db.releases[id].status
    ensures w.db.releases[id].manifest.Some? && w.db.releases[id].manifest.value.signatureVerified
  {
    var o := op.releaseOp;
    PublishWrites(Under(cfg, o.settings), w.db, w.objects, id, o.reachable);
  }

  lemma NewRowIsUnpublished(cfg: Config, hash: string -> string, w: World, op: Op, w': World, id: int)
    requires Sound(cfg, w) && Next(cfg, hash, w, op, w') && id !in w.db.releases && id in w'.db.releases
    ensures w'.db.releases[id].status.Validated?
  {
    if op.UploadRelease? {
      UploadAddsOneRow(Under(cfg, op.settings), w.db, w.objects, op.typeId, op.version, op.upload, op.faults) by {
        assert forall j :: j in w.db.releases ==> ReleaseSound(cfg, w.db, w.objects, j);
      }
      UploadedRow(Under(cfg, op.settings), w.db, w.objects, op.typeId, op.version, op.upload, op.faults);
    } else if op.OnRelease? {
      ReleaseFootprint(cfg, w, op.releaseOp);
    } else {
      OtherStepKeepsReleases(cfg, hash, w, op, w');
    }
  }

  lemma StepKeepsMarks(cfg: Config, hash: string -> string, w: World, op: Op, w': World, id: int)
    requires Sound(cfg, w) && Next(cfg, hash, w, op, w') && ChecksSignatures(op) && DeliverableIsMarked(w.db, id)
    ensures DeliverableIsMarked(w'.db, id)
  {
    if id in w.db.releases {
      StepKeepsRelease(cfg, hash, w, op, w', id);
      StepMovesStatus(cfg, hash, w, op, w', id);
      if w'.db.releases[id].status.Published? && !w.db.releases[id].status.Published? {
        PublishedIsMarked(cfg, hash, w, op, w', id);
      }
    } else if id in w'.db.releases {
      NewRowIsUnpublished(cfg, hash, w, op, w', id);
    }
  }

  lemma CallKeepsMarks(cfg: Config, hash: string -> string, worlds: seq<World>, ops: seq<Op>, k: nat, id: int)
    requires IsRun(cfg, hash, worlds, ops) && worlds[0] == INITIAL && 0 < k < |worlds|
    requires ChecksSignatures(ops[k - 1]) && DeliverableIsMarked(worlds[k - 1].db, id)
    ensures DeliverableIsMarked(worlds[k].db, id)
  {
    RunIsSound(cfg, hash, worlds, ops, k - 1);
    assert StepAt(cfg, hash, worlds, ops, k - 1);
    StepKeepsMarks(cfg, hash, worlds[k - 1], ops[k - 1], worlds[k], id);
  }

  lemma {:induction false} DeliverableStaysMarked(
    cfg: Config, hash: string -> string, worlds: seq<World>, ops: seq<Op>, i: nat, id: int)
    requires IsRun(cfg, hash, worlds, ops) && worlds[0] == INITIAL && i < |worlds|
    requires forall k: nat :: k < i ==> ChecksSignatures(ops[k])
    ensures DeliverableIsMarked(worlds[i].db, id)
    decreases i
  {
    if i > 0 {
      DeliverableStaysMarked(cfg, hash, worlds, ops, i - 1, id);
      CallKeepsMarks(cfg, hash, worlds, ops, i, id);
    }
  }

  /** Where every publication was made with signatures checked, whatever the settings of
      the uploads were, every release that can reach a device is genuine. */
  lemma DeliverableIsGenuine(cfg: Config, hash: string -> string, worlds: seq<World>, ops: seq<Op>, i: nat, id: int)
    requires IsRun(cfg, hash, worlds, ops) && worlds[0] == INITIAL && i < |worlds|
    requires forall k: nat :: k < i ==> ChecksSignatures(ops[k])
    requires id in worlds[i].db.releases
    requires worlds[i].db.releases[id].status.Published? || worlds[i].db.releases[id].status.Deprecated?
    ensures worlds[i].db.releases[id].manifest.Some?
    ensures Genuine(cfg, worlds[i].objects, worlds[i].db.releases[id].manifest.value)
  {
    DeliverableStaysMarked(cfg, hash, worlds, ops, i, id);
    MarkedMeansGenuine(cfg, hash, worlds, ops, i, id);
  }
}
