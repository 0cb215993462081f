/** The device-facing protocol: a manifest poll and a firmware download
    (app/services/ota.py). */
module Ota {
  import opened Wrappers
  import opened Text
  import opened Tables
  import opened Version
  import opened UpdatePath
  import opened ManifestRules
  import opened Policies
  import opened DeviceAuth
  import opened Firmware
  import opened ReleaseSafety
  import opened UpdateDecisions
  import opened RateLimiting

  const MANIFEST_SURFACE := "manifest"
  const FIRMWARE_SURFACE := "firmware"

  /** What a request carries: credentials, the path identity and the version header. */
  datatype Request = Request(
    credentials: Credentials, code: string, platform: string, reportedVersion: Option<string>)

  datatype Outage = ManifestRowMissing | StoreUnavailable | ArtifactRowMissing | ArtifactSizeMismatch

  datatype Response =
    | AuthRejected(failure: AuthFailure)
    | RateLimited
    | NoOffer(reason: UpdateReason)
    | ReleaseUnknown
    | Unavailable(outage: Outage)
    | ManifestServed(release: Release, body: bytes)
    | FirmwareServed(release: Release, contentLength: nat, stream: bytes)

  /** The status matrix of the device contract. */
  function StatusCode(r: Response): int {
    match r
    case AuthRejected(f) => HttpStatus(f)
    case RateLimited => 429
    case NoOffer(_) => 404
    case ReleaseUnknown => 404
    case Unavailable(_) => 503
    case ManifestServed(_, _) => 200
    case FirmwareServed(_, _, _) => 200
  }

  /** What the two endpoints rely on; `World` shows that every run keeps it. */
  ghost predicate StateSound(cfg: Config, db: Db, objects: Objects) {
    PoliciesSound(db) && ReleasesSound(cfg, db, objects) && SerialsUnique(db) && HashesUnique(db)
  }

  /* ----- row updates ----- */

  /** `last_manifest_check_at`, and a reported version if it parses. */
  function Checked(db: Db, id: int, reported: Option<string>, now: int): Db
    requires id in db.devices
  {
    var d := db.devices[id].(lastManifestCheckAt := Some(now));
    var row := if reported.Some? && IsValidVersion(reported.value)
               then d.(currentVersion := reported, versionSource := Some(DeviceReported)) else d;
    db.(devices := db.devices[id := row])
  }

  predicate AlreadyOffered(db: Db, id: int, version: string) {
    exists a :: a in db.attempts && a.deviceId == id && a.toVersion == version && a.status.UpdateOffered?
  }

  /** One offer per device and target version. */
  function WithOffer(db: Db, id: int, r: Release): Db
    requires id in db.devices
  {
    if AlreadyOffered(db, id, r.version) then db
    else
      db.(attempts := db.attempts
                      + [Attempt(id, r.id, db.devices[id].currentVersion, r.version, UpdateOffered, None)])
  }

  /** The completion callback: a missing device or release is only logged. */
  function RecordDownload(db: Db, id: int, releaseId: int, served: nat): Db {
    if id !in db.devices || releaseId !in db.releases then db
    else
      db.(attempts := db.attempts
                      + [Attempt(id, releaseId, db.devices[id].currentVersion,
                                 db.releases[releaseId].version, DownloadServed, Some(served))])
  }

  /* ----- what a poll may answer ----- */

  /** After authentication: `allowed` is the limiter's answer, `reachable` whether
      the object store can be read. */
  ghost predicate PollsDevice(
    db: Db, objects: Objects, req: Request, id: int, allowed: bool, now: int, reachable: bool,
    next: Db, response: Response)
    requires id in db.devices && PoliciesSound(db)
  {
    var seen := Seen(db, id, now);
    if !allowed then next == seen && response == RateLimited
    else
      var checked := Checked(seen, id, req.reportedVersion, now);
      exists d ::
        && Decides(checked, id, req.code, req.platform, now, d)
        && AnswersPoll(checked, objects, id, d, reachable, next, response)
  }

  ghost predicate AnswersPoll(
    checked: Db, objects: Objects, id: int, d: Decision, reachable: bool, next: Db, response: Response)
    requires id in checked.devices
  {
    if !d.available || d.release.None? then next == checked && response == NoOffer(d.reason)
    else
      var r := d.release.value;
      if r.manifest.None? then next == checked && response == Unavailable(ManifestRowMissing)
      else
        var key := r.manifest.value.storageKey;
        if !reachable || key !in objects then next == checked && response == Unavailable(StoreUnavailable)
        else next == WithOffer(checked, id, r) && response == ManifestServed(r, objects[key])
  }

  ghost predicate Polls(
    hash: string -> string, db: Db, objects: Objects, req: Request, allowed: bool, now: int, reachable: bool,
    next: Db, response: Response)
    requires PoliciesSound(db) && SerialsUnique(db)
  {
    var who := Identify(db, hash, req.credentials);
    IdentifyIsProof(db, hash, req.credentials);
    if who.Failure? then next == db && response == AuthRejected(who.error)
    else PollsDevice(db, objects, req, who.value, allowed, now, reachable, next, response)
  }

  /* ----- what a download answers ----- */

  ghost predicate IsDeliverable(db: Db, typeId: int, version: string, id: int) {
    && id in db.releases
    && db.releases[id].typeId == typeId && db.releases[id].version == version
    && (db.releases[id].status.Published? || db.releases[id].status.Deprecated?)
  }

  /** The exact release a signed URL was issued for, if it is still deliverable. */
  ghost function ResolveRelease(db: Db, typeId: int, version: string, filename: string): (r: Option<Release>)
    ensures r.Some? ==> IsValidVersion(version) && r.value.version == version && r.value.artifact.Some?
  {
    if ValidateVersion(version).Some? || ValidateFilename(filename).Some? then None
    else if typeId !in db.types then None
    else if !exists id :: IsDeliverable(db, typeId, version, id) then None
    else
      var id :| IsDeliverable(db, typeId, version, id);
      var r := db.releases[id];
      if r.artifact.None? || r.artifact.value.filename != filename then None else Some(r)
  }

  ghost function DownloadsDevice(
    db: Db, objects: Objects, req: Request, version: string, filename: string, id: int, allowed: bool,
    now: int, reachable: bool): Response
    requires id in db.devices && PoliciesSound(db)
  {
    var device := db.devices[id];
    var refusal := CheckEligibility(db, device, req.code, req.platform);
    var resolved := ResolveRelease(db, device.typeId, version, filename);
    if !allowed then RateLimited
    else if refusal.Some? then NoOffer(refusal.value)
    else if resolved.None? then ReleaseUnknown
    else if !AllowsDelivery(db, id, device.typeId, resolved.value, now) then NoOffer(PolicyBlocked)
    else
      var a := resolved.value.artifact.value;
      if !reachable || a.storageKey !in objects then Unavailable(StoreUnavailable)
      else if |objects[a.storageKey]| != a.size then Unavailable(ArtifactSizeMismatch)
      else FirmwareServed(resolved.value, a.size, objects[a.storageKey])
  }

  ghost predicate Downloads(
    hash: string -> string, db: Db, objects: Objects, req: Request, version: string, filename: string,
    allowed: bool, now: int, reachable: bool, next: Db, response: Response)
    requires PoliciesSound(db) && SerialsUnique(db)
  {
    var who := Identify(db, hash, req.credentials);
    IdentifyIsProof(db, hash, req.credentials);
    if who.Failure? then next == db && response == AuthRejected(who.error)
    else
      && next == Seen(db, who.value, now)
      && response == DownloadsDevice(next, objects, req, version, filename, who.value, allowed, now, reachable)
  }

  /* ----- limiter keys ----- */

  function IdText(id: int): string {
    if id < 0 then "-" + Render(-id) else Render(id)
  }

  function LimiterKey(surface: string, id: int): string {
    surface + ":" + IdText(id)
  }

  /** Devices and surfaces never share a quota. */
  lemma LimiterKeysAreInjective(surface: string, id: int, surface': string, id': int)
    requires Free(surface, ':') && Free(surface', ':')
    requires LimiterKey(surface, id) == LimiterKey(surface', id')
    ensures surface == surface' && id == id'
  {
    HeadIsUnique(surface, IdText(id), surface', IdText(id'), ':');
    var text := IdText(id);
    assert id < 0 ==> text[1..] == Render(-id);
    assert id' < 0 ==> text[1..] == Render(-id');
    assert id >= 0 ==> IsDigit(text[0]);
    assert id' >= 0 ==> IsDigit(text[0]);
    if id < 0 {
      assert ToNat(Render(-id)) == -id;
      assert ToNat(Render(-id')) == -id';
    }
  }

  /* ----- the service ----- */

  class OtaService {
    const session: Session
    const storage: ObjectStore
    const limiter: InMemoryRateLimiter
    const decisions: UpdateDecisionService
    const auth: DeviceAuthService
    const hash: string -> string
    const cfg: Config

    constructor (session: Session, storage: ObjectStore, limiter: InMemoryRateLimiter,
                 hash: string -> string, cfg: Config)
      ensures this.session == session && this.storage == storage && this.limiter == limiter
      ensures this.hash == hash && this.cfg == cfg && Wired()
    {
      this.session := session;
      this.storage := storage;
      this.limiter := limiter;
      this.hash := hash;
      this.cfg := cfg;
      decisions := new UpdateDecisionService(session);
      auth := new DeviceAuthService(session);
    }

    ghost predicate Wired() {
      && decisions.session == session && decisions.policies.session == session
      && auth.session == session && auth.tokens.session == session
    }

    /** One release per type and version, so the query has at most one row. */
    method FindRelease(typeId: int, version: string, filename: string) returns (found: Option<Release>)
      requires VersionsUnique(session.db)
      ensures found == ResolveRelease(session.db, typeId, version, filename)
    {
      if ValidateVersion(version).Some? || ValidateFilename(filename).Some? {
        return None;
      }
      if typeId !in session.db.types {
        return None;
      }
      var releases := session.db.releases;
      var rows := set id | && id in releases && releases[id].typeId == typeId && releases[id].version == version
                           && (releases[id].status.Published? || releases[id].status.Deprecated?);
      assert forall id :: id in rows <==> IsDeliverable(session.db, typeId, version, id);
      if rows == {} {
        return None;
      }
      var id := PickAny(rows);
      assert forall other :: IsDeliverable(session.db, typeId, version, other) ==> other == id;
      var r := releases[id];
      if r.artifact.None? || r.artifact.value.filename != filename {
        return None;
      }
      return Some(r);
    }

    method Manifest(req: Request, now: int, clock: real, reachable: bool) returns (response: Response)
      requires Wired() && session.Clean() && StateSound(cfg, session.db, storage.objects)
      modifies session, limiter
      ensures session.Clean()
      ensures
        var who := Identify(old(session.db), hash, req.credentials);
        var call := if who.Failure? then (old(limiter.windows), true)
                    else RateLimiting.Step(limiter.threshold, old(limiter.windows), clock,
                                           LimiterKey(MANIFEST_SURFACE, who.value), MANIFEST_RATE_LIMIT);
        && limiter.windows == call.0
        && Polls(hash, old(session.db), storage.objects, req, call.1, now, reachable, session.db, response)
    {
      IdentifyIsProof(session.db, hash, req.credentials);
      var who := auth.Authenticate(hash, req.credentials, now);
      if who.Failure? {
        return AuthRejected(who.error);
      }
      var id := who.value;
      var allowed := limiter.Allow(clock, LimiterKey(MANIFEST_SURFACE, id), MANIFEST_RATE_LIMIT);
      if !allowed {
        session.Commit();
        return RateLimited;
      }
      session.db := Checked(session.db, id, req.reportedVersion, now);
      var d := decisions.Decide(id, req.code, req.platform, now);
      if !d.available || d.release.None? {
        session.Commit();
        response := NoOffer(d.reason);
      } else {
        var r := d.release.value;
        response := AnswerOffer(id, r, reachable);
      }
      assert AnswersPoll(Checked(Seen(old(session.db), id, now), id, req.reportedVersion, now),
                         storage.objects, id, d, reachable, session.db, response);
    }

    /** The stored bytes are served verbatim; an outage keeps what was recorded of
        the device but asserts no offer. */
    method AnswerOffer(id: int, r: Release, reachable: bool) returns (response: Response)
      requires id in session.db.devices
      modifies session
      ensures session.Clean()
      ensures
        if r.manifest.None? then session.db == old(session.db) && response == Unavailable(ManifestRowMissing)
        else if !reachable || r.manifest.value.storageKey !in storage.objects then
          session.db == old(session.db) && response == Unavailable(StoreUnavailable)
        else
          && session.db == WithOffer(old(session.db), id, r)
          && response == ManifestServed(r, storage.objects[r.manifest.value.storageKey])
    {
      if r.manifest.None? {
        session.Commit();
        return Unavailable(ManifestRowMissing);
      }
      var raw := storage.Get(r.manifest.value.storageKey, reachable);
      if raw.None? {
        session.Commit();
        return Unavailable(StoreUnavailable);
      }
      session.db := WithOffer(session.db, id, r);
      session.Commit();
      return ManifestServed(r, raw.value);
    }

    method Download(req: Request, version: string, filename: string, now: int, clock: real, reachable: bool)
      returns (response: Response)
      requires Wired() && session.Clean() && StateSound(cfg, session.db, storage.objects)
      modifies session, limiter
      ensures session.Clean()
      ensures
        var who := Identify(old(session.db), hash, req.credentials);
        var call := if who.Failure? then (old(limiter.windows), true)
                    else RateLimiting.Step(limiter.threshold, old(limiter.windows), clock,
                                           LimiterKey(FIRMWARE_SURFACE, who.value), FIRMWARE_RATE_LIMIT);
        && limiter.windows == call.0
        && Downloads(hash, old(session.db), storage.objects, req, version, filename, call.1, now, reachable,
                     session.db, response)
    {
      IdentifyIsProof(session.db, hash, req.credentials);
      var who := auth.Authenticate(hash, req.credentials, now);
      if who.Failure? {
        return AuthRejected(who.error);
      }
      var id := who.value;
      var allowed := limiter.Allow(clock, LimiterKey(FIRMWARE_SURFACE, id), FIRMWARE_RATE_LIMIT);
      response := AnswerDownload(req, version, filename, id, allowed, now, reachable);
      session.Commit();
    }

    method AnswerDownload(
      req: Request, version: string, filename: string, id: int, allowed: bool, now: int, reachable: bool)
      returns (response: Response)
      requires Wired() && id in session.db.devices
      requires PoliciesSound(session.db) && VersionsUnique(session.db)
      ensures response
              == DownloadsDevice(session.db, storage.objects, req, version, filename, id, allowed, now, reachable)
    {
      if !allowed {
        return RateLimited;
      }
      var device := session.db.devices[id];
      var refusal := CheckEligibility(session.db, device, req.code, req.platform);
      if refusal.Some? {
        return NoOffer(refusal.value);
      }
      var found := FindRelease(device.typeId, version, filename);
      if found.None? {
        return ReleaseUnknown;
      }
      var permitted := decisions.DeliveryAllowed(id, device.typeId, found.value, now);
      if !permitted {
        return NoOffer(PolicyBlocked);
      }
      var artifact := found.value.artifact.value;
      var stream := storage.Get(artifact.storageKey, reachable);
      if stream.None? {
        return Unavailable(StoreUnavailable);
      }
      if |stream.value| != artifact.size {
        return Unavailable(ArtifactSizeMismatch);
      }
      return FirmwareServed(found.value, artifact.size, stream.value);
    }
  }
}
