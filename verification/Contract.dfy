/** The device contract, read off the tables: what each answer means, and what each
    request leaves behind (app/services/ota.py, app/services/update_decision.py). */
module Contract {
  import opened Wrappers
  import opened Text
  import opened Tables
  import opened Version
  import opened PolicyRules
  import opened Policies
  import opened DeviceAuth
  import opened Firmware
  import opened ReleaseSafety
  import opened UpdateDecisions
  import opened Ota
  import opened OtaSafety
  import opened World

  /* ----- what an answer means ----- */

  ghost predicate Blank(header: Option<string>) {
    header.None? || Strip(header.value) == ""
  }

  /** The status of a poll, from the request and the tables: 401 for a missing header or
      an admitted device without its token, 403 for no admitted device, 429 for a spent
      quota; 404, 503 and 200 say what became of an admitted request. */
  lemma PollStatusIs(
    hash: string -> string, db: Db, objects: Objects, req: Request, allowed: bool, now: int, reachable: bool,
    next: Db, response: Response)
    requires PoliciesSound(db) && SerialsUnique(db)
    requires Polls(hash, db, objects, req, allowed, now, reachable, next, response)
    ensures
      var c, status := req.credentials, StatusCode(response);
      var who := Identify(db, hash, c);
      && (status == 401 <==> who.Failure? && (Blank(c.serial) || Blank(c.token) || exists id :: Admitted(db, c, id)))
      && (status == 403 <==> !Blank(c.serial) && !Blank(c.token) && !exists id :: Admitted(db, c, id))
      && (status == 429 <==> who.Success? && !allowed)
      && (status == 404 <==> response.NoOffer?)
      && (status == 503 <==> response.Unavailable?)
      && (status == 200 <==> response.ManifestServed?)
      && status in {200, 401, 403, 404, 429, 503}
  {
    IdentifyIsProof(db, hash, req.credentials);
    LockoutIffNotAdmitted(db, hash, req.credentials);
  }

  /** The same for a download, for which a release that does not resolve is a 404 too. */
  lemma DownloadStatusIs(
    hash: string -> string, db: Db, objects: Objects, req: Request, version: string, filename: string,
    allowed: bool, now: int, reachable: bool, next: Db, response: Response)
    requires PoliciesSound(db) && SerialsUnique(db)
    requires Downloads(hash, db, objects, req, version, filename, allowed, now, reachable, next, response)
    ensures
      var c, status := req.credentials, StatusCode(response);
      var who := Identify(db, hash, c);
      && (status == 401 <==> who.Failure? && (Blank(c.serial) || Blank(c.token) || exists id :: Admitted(db, c, id)))
      && (status == 403 <==> !Blank(c.serial) && !Blank(c.token) && !exists id :: Admitted(db, c, id))
      && (status == 429 <==> who.Success? && !allowed)
      && (status == 404 <==> response.NoOffer? || response.ReleaseUnknown?)
      && (status == 503 <==> response.Unavailable?)
      && (status == 200 <==> response.FirmwareServed?)
      && status in {200, 401, 403, 404, 429, 503}
  {
    IdentifyIsProof(db, hash, req.credentials);
    LockoutIffNotAdmitted(db, hash, req.credentials);
  }

  /** An offer says by which rule it was made, and names the policy that governs. */
  lemma OfferNamesItsRule(db: Db, id: int, code: string, platform: string, now: int, d: Decision)
    requires id in db.devices && PoliciesSound(db) && Decides(db, id, code, platform, now, d) && d.available
    ensures
      var p := Resolve(db.policies, id, db.devices[id].typeId, now).policy;
      if p.None? then d.reason == LatestAvailable && d.policyId.None? && d.policyScope.None?
      else
        && d.reason == (if p.value.def.policyType == Pin then PinnedVersion else VersionRange)
        && p.value.def.policyType != Disable
        && d.policyId == Some(p.value.id) && d.policyScope == Some(p.value.def.scope)
  {
    ResolvedPolicyIsSound(db, id, db.devices[id].typeId, now);
    ResolveNeverConflicts(db, id, db.devices[id].typeId, now);
    ResolveMeetsSpec(Rows(Applicable(db.policies, id, db.devices[id].typeId)), now);
  }

  ghost predicate PublishedAt(db: Db, typeId: int, i: int) {
    i in db.releases && db.releases[i].typeId == typeId && db.releases[i].status == Published
  }

  /** The release is published for the type, and the policy lets it through. */
  ghost predicate PermittedAt(db: Db, typeId: int, p: Option<Policy>, i: int) {
    && PublishedAt(db, typeId, i) && IsValidVersion(db.releases[i].version)
    && PolicyUsable(p) && Permits(p, db.releases[i])
  }

  /** What the device is known to run once it has been heard. */
  ghost function KnownAfter(d: Device, reported: Option<string>): Option<string> {
    if reported.Some? && IsValidVersion(reported.value) then reported
    else if d.currentVersion.Some? && IsValidVersion(d.currentVersion.value) then d.currentVersion
    else None
  }

  ghost predicate Newer(r: Release, known: Option<string>) {
    known.Some? && IsValidVersion(known.value) && IsValidVersion(r.version) ==> Key(known.value).Less(Key(r.version))
  }

  ghost predicate IsDisabling(p: Option<Policy>) {
    p.Some? && p.value.def.policyType == Disable
  }

  /** The answer an identified device within its quota gets, as a table over the rows. */
  ghost predicate AnswersByTable(db: Db, id: int, req: Request, now: int, response: Response)
    requires id in db.devices && db.devices[id].typeId in db.types
  {
    var d, t := db.devices[id], db.types[db.devices[id].typeId];
    var p := Resolve(db.policies, id, d.typeId, now).policy;
    var onPath := req.code == t.code && req.platform == t.platform;
    var eligible := onPath && d.status == Active && d.otaEnabled && !IsDisabling(p);
    var known := KnownAfter(d, req.reportedVersion);
    && (response == NoOffer(DeviceTypeMismatch) <==> !onPath)
    && (response == NoOffer(DeviceInactive) <==> onPath && d.status != Active)
    && (response == NoOffer(OtaDisabled) <==> onPath && d.status == Active && (!d.otaEnabled || IsDisabling(p)))
    && (response == NoOffer(PolicyBlocked)
        <==> && eligible && p.Some? && (exists i :: PublishedAt(db, d.typeId, i))
             && !exists i :: PermittedAt(db, d.typeId, p, i))
    && (response == NoOffer(NoEligibleRelease)
        <==> && eligible && (p.None? || !exists i :: PublishedAt(db, d.typeId, i))
             && !exists i :: PermittedAt(db, d.typeId, p, i))
    && (response == NoOffer(NoUpdate)
        <==> && eligible && (exists i :: PermittedAt(db, d.typeId, p, i))
             && forall i :: PermittedAt(db, d.typeId, p, i) ==> !Newer(db.releases[i], known))
    && (response.ManifestServed? || response.Unavailable?
        <==> eligible && exists i :: PermittedAt(db, d.typeId, p, i) && Newer(db.releases[i], known))
  }

  lemma CandidatesAre(cfg: Config, db: Db, checked: Db, objects: Objects, typeId: int, p: Option<Policy>)
    requires ReleasesSound(cfg, db, objects) && checked.releases == db.releases && PolicyUsable(p)
    ensures forall i :: PermittedAt(db, typeId, p, i) <==>
              i in db.releases && IsCandidate(checked, typeId, p, db.releases[i])
    ensures forall r :: IsCandidate(checked, typeId, p, r) ==> PermittedAt(db, typeId, p, r.id)
    ensures forall i :: PublishedAt(db, typeId, i) <==>
              i in db.releases && IsPublished(checked, typeId, db.releases[i])
    ensures forall r :: IsPublished(checked, typeId, r) ==> PublishedAt(db, typeId, r.id)
  {
    assert forall i :: i in db.releases ==> ReleaseSound(cfg, db, objects, i);
  }

  lemma BestIsNewer(db: Db, typeId: int, p: Option<Policy>, best: Release, known: Option<string>)
    requires PolicyUsable(p) && IsBest(db, typeId, p, best)
    requires known.Some? ==> IsValidVersion(known.value)
    ensures !NothingNewer(known, best) <==> Newer(best, known)
    ensures forall r :: IsCandidate(db, typeId, p, r) && Newer(r, known) ==> Newer(best, known)
  {
    if known.Some? {
      forall r | IsCandidate(db, typeId, p, r) && Newer(r, known)
        ensures Newer(best, known)
      {
        LessIsStrictTotal(Key(known.value), Key(r.version), Key(best.version));
        LessIsStrictTotal(Key(r.version), Key(best.version), Key(best.version));
      }
    }
  }

  /** What the decision is for an eligible device, from the candidates. */
  ghost predicate ChoosesByTable(db: Db, typeId: int, p: Option<Policy>, known: Option<string>, d: Decision) {
    && (!d.available && d.reason == PolicyBlocked
        <==> p.Some? && (exists i :: PublishedAt(db, typeId, i)) && !exists i :: PermittedAt(db, typeId, p, i))
    && (!d.available && d.reason == NoEligibleRelease
        <==> (p.None? || !exists i :: PublishedAt(db, typeId, i)) && !exists i :: PermittedAt(db, typeId, p, i))
    && (!d.available && d.reason == NoUpdate
        <==> && (exists i :: PermittedAt(db, typeId, p, i))
             && forall i :: PermittedAt(db, typeId, p, i) ==> !Newer(db.releases[i], known))
    && (d.available <==> exists i :: PermittedAt(db, typeId, p, i) && Newer(db.releases[i], known))
    && (d.available ==> d.release.Some?)
    && (!d.available ==> d.reason in {PolicyBlocked, NoEligibleRelease, NoUpdate})
  }

  lemma NoCandidateByTable(
    cfg: Config, db: Db, checked: Db, objects: Objects, id: int, code: string, platform: string, now: int, d: Decision)
    requires ReleasesSound(cfg, db, objects) && checked.releases == db.releases
    requires id in checked.devices && PoliciesSound(checked)
    requires CheckEligibility(checked, checked.devices[id], code, platform).None?
    requires !IsDisabling(Resolve(checked.policies, id, checked.devices[id].typeId, now).policy)
    requires Decides(checked, id, code, platform, now, d) && d.release.None?
    ensures
      var typeId := checked.devices[id].typeId;
      ChoosesByTable(db, typeId, Resolve(checked.policies, id, typeId, now).policy, d.knownVersion, d)
  {
    var typeId := checked.devices[id].typeId;
    ResolveNeverConflicts(checked, id, typeId, now);
    ResolvedPolicyIsSound(checked, id, typeId, now);
    CandidatesAre(cfg, db, checked, objects, typeId, Resolve(checked.policies, id, typeId, now).policy);
  }

  lemma BestCandidateByTable(
    cfg: Config, db: Db, checked: Db, objects: Objects, id: int, code: string, platform: string, now: int, d: Decision)
    requires ReleasesSound(cfg, db, objects) && checked.releases == db.releases
    requires id in checked.devices && PoliciesSound(checked)
    requires CheckEligibility(checked, checked.devices[id], code, platform).None?
    requires !IsDisabling(Resolve(checked.policies, id, checked.devices[id].typeId, now).policy)
    requires Decides(checked, id, code, platform, now, d) && d.release.Some?
    ensures
      var typeId := checked.devices[id].typeId;
      ChoosesByTable(db, typeId, Resolve(checked.policies, id, typeId, now).policy, d.knownVersion, d)
  {
    var typeId := checked.devices[id].typeId;
    ResolveNeverConflicts(checked, id, typeId, now);
    ResolvedPolicyIsSound(checked, id, typeId, now);
    var p := Resolve(checked.policies, id, typeId, now).policy;
    CandidatesAre(cfg, db, checked, objects, typeId, p);
    BestIsNewer(checked, typeId, p, d.release.value, d.knownVersion);
    assert PermittedAt(db, typeId, p, d.release.value.id);
  }

  lemma AnswerFollowsDecision(checked: Db, objects: Objects, id: int, d: Decision, reachable: bool, next: Db,
                              response: Response)
    requires id in checked.devices && AnswersPoll(checked, objects, id, d, reachable, next, response)
    requires d.available ==> d.release.Some?
    ensures d.available <==> response.ManifestServed? || response.Unavailable?
    ensures !d.available <==> response == NoOffer(d.reason)
  {
  }

  ghost predicate DecidedByTable(db: Db, id: int, req: Request, now: int, d: Decision)
    requires id in db.devices && db.devices[id].typeId in db.types
  {
    var v, t := db.devices[id], db.types[db.devices[id].typeId];
    var p := Resolve(db.policies, id, v.typeId, now).policy;
    var onPath := req.code == t.code && req.platform == t.platform;
    if !onPath then !d.available && d.reason == DeviceTypeMismatch
    else if v.status != Active then !d.available && d.reason == DeviceInactive
    else if !v.otaEnabled || IsDisabling(p) then !d.available && d.reason == OtaDisabled
    else ChoosesByTable(db, v.typeId, p, KnownAfter(v, req.reportedVersion), d)
  }

  lemma DecisionByTable(
    cfg: Config, db: Db, checked: Db, objects: Objects, id: int, req: Request, now: int, d: Decision)
    requires StateSound(cfg, db, objects) && id in db.devices && db.devices[id].typeId in db.types
    requires checked == Checked(Seen(db, id, now), id, req.reportedVersion, now)
    requires PoliciesSound(checked) && Decides(checked, id, req.code, req.platform, now, d)
    ensures DecidedByTable(db, id, req, now, d)
  {
    var typeId := db.devices[id].typeId;
    ResolveNeverConflicts(db, id, typeId, now);
    assert d.knownVersion == KnownAfter(db.devices[id], req.reportedVersion);
    if CheckEligibility(checked, checked.devices[id], req.code, req.platform).None?
       && !IsDisabling(Resolve(checked.policies, id, typeId, now).policy) {
      if d.release.None? {
        NoCandidateByTable(cfg, db, checked, objects, id, req.code, req.platform, now, d);
      } else {
        BestCandidateByTable(cfg, db, checked, objects, id, req.code, req.platform, now, d);
      }
    }
  }

  lemma DecisionBehindPoll(
    cfg: Config, hash: string -> string, db: Db, objects: Objects, req: Request, now: int, reachable: bool,
    next: Db, response: Response, id: int) returns (d: Decision)
    requires StateSound(cfg, db, objects) && Identify(db, hash, req.credentials) == Success(id)
    requires id in db.devices && db.devices[id].typeId in db.types
    requires Polls(hash, db, objects, req, true, now, reachable, next, response)
    ensures DecidedByTable(db, id, req, now, d)
    ensures d.available <==> response.ManifestServed? || response.Unavailable?
    ensures !d.available <==> response == NoOffer(d.reason)
  {
    IdentifyIsProof(db, hash, req.credentials);
    var checked := Checked(Seen(db, id, now), id, req.reportedVersion, now);
    d :| Decides(checked, id, req.code, req.platform, now, d)
         && AnswersPoll(checked, objects, id, d, reachable, next, response);
    DecisionByTable(cfg, db, checked, objects, id, req, now, d);
    AnswerFollowsDecision(checked, objects, id, d, reachable, next, response);
  }

  lemma AnswerByTable(db: Db, id: int, req: Request, now: int, d: Decision, response: Response)
    requires id in db.devices && db.devices[id].typeId in db.types && DecidedByTable(db, id, req, now, d)
    requires d.available <==> response.ManifestServed? || response.Unavailable?
    requires !d.available <==> response == NoOffer(d.reason)
    ensures AnswersByTable(db, id, req, now, response)
  {
  }

  /** The whole of a poll's answer: to a device that is who it says it is and within its
      quota, each reason is given exactly in its own case, and a manifest is served, or
      the store is down, exactly when something permitted is newer than what the device
      is known to run. */
  lemma PollIsAnsweredByTable(
    cfg: Config, hash: string -> string, db: Db, objects: Objects, req: Request, now: int, reachable: bool,
    next: Db, response: Response, id: int)
    requires StateSound(cfg, db, objects) && Identify(db, hash, req.credentials) == Success(id)
    requires id in db.devices && db.devices[id].typeId in db.types
    requires Polls(hash, db, objects, req, true, now, reachable, next, response)
    ensures AnswersByTable(db, id, req, now, response)
  {
    var d := DecisionBehindPoll(cfg, hash, db, objects, req, now, reachable, next, response, id);
    AnswerByTable(db, id, req, now, d, response);
  }

  /** The release a download names: published or deprecated, of the type, with that
      version and filename. */
  ghost predicate NamedAt(db: Db, typeId: int, version: string, filename: string, i: int) {
    && i in db.releases && db.releases[i].typeId == typeId && db.releases[i].version == version
    && (db.releases[i].status == Published || db.releases[i].status == Deprecated)
    && db.releases[i].artifact.Some? && db.releases[i].artifact.value.filename == filename
  }

  ghost predicate LetThrough(p: Option<Policy>, r: Release) {
    IsValidVersion(r.version) && PolicyUsable(p) && Permits(p, r)
  }

  /** The answer to a download by an identified device within its quota. A disabling
      policy blocks here, where a poll says that updates are off. */
  ghost predicate DownloadByTable(
    cfg: Config, db: Db, objects: Objects, id: int, req: Request, version: string, filename: string, now: int,
    reachable: bool, response: Response)
    requires id in db.devices && db.devices[id].typeId in db.types
  {
    var d, t := db.devices[id], db.types[db.devices[id].typeId];
    var p := Resolve(db.policies, id, d.typeId, now).policy;
    var onPath := req.code == t.code && req.platform == t.platform;
    if !onPath then response == NoOffer(DeviceTypeMismatch)
    else if d.status != Active then response == NoOffer(DeviceInactive)
    else if !d.otaEnabled then response == NoOffer(OtaDisabled)
    else if !exists i :: NamedAt(db, d.typeId, version, filename, i) then response == ReleaseUnknown
    else
      exists i :: && NamedAt(db, d.typeId, version, filename, i)
                  && GivenOut(cfg, objects, p, db.releases[i], reachable, response)
  }

  ghost predicate GivenOut(
    cfg: Config, objects: Objects, p: Option<Policy>, r: Release, reachable: bool, response: Response)
  {
    if !LetThrough(p, r) then response == NoOffer(PolicyBlocked)
    else if !reachable then response == Unavailable(StoreUnavailable)
    else
      && response.FirmwareServed? && response.release == r && r.artifact.Some?
      && r.artifact.value.storageKey in objects && response.stream == objects[r.artifact.value.storageKey]
      && response.contentLength == |response.stream| == r.artifact.value.size
      && cfg.md5(response.stream) == r.artifact.value.md5
  }

  lemma NamedResolves(cfg: Config, db: Db, objects: Objects, typeId: int, version: string, filename: string, i: int)
    requires ReleasesSound(cfg, db, objects) && NamedAt(db, typeId, version, filename, i)
    ensures ResolveRelease(db, typeId, version, filename) == Some(db.releases[i])
  {
    assert ReleaseSound(cfg, db, objects, i);
    ResolvesToItself(cfg, db, objects, db.releases[i]);
  }

  lemma ResolvedIsNamed(db: Db, typeId: int, version: string, filename: string)
    requires ResolveRelease(db, typeId, version, filename).Some?
    ensures exists i :: NamedAt(db, typeId, version, filename, i)
  {
    var i :| IsDeliverable(db, typeId, version, i)
             && ResolveRelease(db, typeId, version, filename) == Some(db.releases[i]);
    assert NamedAt(db, typeId, version, filename, i);
  }

  lemma NamedIsGivenOut(
    cfg: Config, db: Db, objects: Objects, req: Request, version: string, filename: string, id: int, now: int,
    reachable: bool, i: int)
    requires StateSound(cfg, db, objects) && id in db.devices
    requires CheckEligibility(db, db.devices[id], req.code, req.platform).None?
    requires NamedAt(db, db.devices[id].typeId, version, filename, i)
    ensures
      var p := Resolve(db.policies, id, db.devices[id].typeId, now).policy;
      GivenOut(cfg, objects, p, db.releases[i], reachable,
               DownloadsDevice(db, objects, req, version, filename, id, true, now, reachable))
  {
    NamedResolves(cfg, db, objects, db.devices[id].typeId, version, filename, i);
    assert ReleaseSound(cfg, db, objects, i);
    AllowsIffPermits(db, id, db.devices[id].typeId, db.releases[i], now);
  }

  lemma DeviceIsAnsweredByTable(
    cfg: Config, db: Db, objects: Objects, req: Request, version: string, filename: string, id: int, now: int,
    reachable: bool)
    requires StateSound(cfg, db, objects) && id in db.devices && db.devices[id].typeId in db.types
    ensures DownloadByTable(cfg, db, objects, id, req, version, filename, now, reachable,
                            DownloadsDevice(db, objects, req, version, filename, id, true, now, reachable))
  {
    var typeId := db.devices[id].typeId;
    if CheckEligibility(db, db.devices[id], req.code, req.platform).None? {
      if i :| NamedAt(db, typeId, version, filename, i) {
        NamedIsGivenOut(cfg, db, objects, req, version, filename, id, now, reachable, i);
      } else if ResolveRelease(db, typeId, version, filename).Some? {
        ResolvedIsNamed(db, typeId, version, filename);
      }
    }
  }

  /** The whole of a download's answer: refusals in their order, then the one release
      that the path names, its bytes if the policy lets it through, with the size and
      checksum its row states. */
  lemma DownloadIsAnsweredByTable(
    cfg: Config, hash: string -> string, db: Db, objects: Objects, req: Request, version: string, filename: string,
    now: int, reachable: bool, next: Db, response: Response, id: int)
    requires StateSound(cfg, db, objects) && Identify(db, hash, req.credentials) == Success(id)
    requires id in db.devices && db.devices[id].typeId in db.types
    requires Downloads(hash, db, objects, req, version, filename, true, now, reachable, next, response)
    ensures DownloadByTable(cfg, db, objects, id, req, version, filename, now, reachable, response)
  {
    IdentifyIsProof(db, hash, req.credentials);
    DownloadChangesEvidenceOnly(hash, db, objects, req, version, filename, true, now, reachable, next, response);
    EvidenceKeepsSound(cfg, db, next, objects);
    DeviceIsAnsweredByTable(cfg, next, objects, req, version, filename, id, now, reachable);
    assert forall i :: NamedAt(db, db.devices[id].typeId, version, filename, i)
                       <==> NamedAt(next, db.devices[id].typeId, version, filename, i);
  }

  /* ----- what a request records ----- */

  /** Some attempt says that the version was offered to the device. */
  ghost predicate WasOffered(db: Db, id: int, version: string) {
    exists a :: a in db.attempts && a.deviceId == id && a.toVersion == version && a.status == UpdateOffered
  }

  /** What a poll writes: that the device was seen; within its quota that it checked,
      and a version it reports if that is readable; and for a served manifest one
      offer, unless the version was offered to the device before. No other device and
      no other table is written. */
  ghost predicate PollRecords(db: Db, id: int, req: Request, allowed: bool, now: int, next: Db, response: Response)
    requires id in db.devices
  {
    && next == db.(devices := next.devices, attempts := next.attempts)
    && next.devices.Keys == db.devices.Keys
    && (forall j :: j in db.devices && j != id ==> next.devices[j] == db.devices[j])
    && var d, e := db.devices[id], next.devices[id];
       var heard := allowed && req.reportedVersion.Some? && IsValidVersion(req.reportedVersion.value);
       && e.lastSeenAt == Some(now)
       && e.lastManifestCheckAt == (if allowed then Some(now) else d.lastManifestCheckAt)
       && e.currentVersion == (if heard then req.reportedVersion else d.currentVersion)
       && e.versionSource == (if heard then Some(DeviceReported) else d.versionSource)
       && e == d.(lastSeenAt := e.lastSeenAt, lastManifestCheckAt := e.lastManifestCheckAt,
                  currentVersion := e.currentVersion, versionSource := e.versionSource)
       && next.attempts
          == if response.ManifestServed? && !WasOffered(db, id, response.release.version)
             then db.attempts + [Attempt(id, response.release.id, e.currentVersion, response.release.version,
                                         UpdateOffered, None)]
             else db.attempts
  }

  lemma CheckIsRecorded(db: Db, id: int, req: Request, allowed: bool, now: int, next: Db, response: Response)
    requires id in db.devices && !response.ManifestServed?
    requires next == if allowed then Checked(Seen(db, id, now), id, req.reportedVersion, now) else Seen(db, id, now)
    ensures PollRecords(db, id, req, allowed, now, next, response)
  {
  }

  lemma OfferIsRecorded(db: Db, id: int, req: Request, now: int, next: Db, response: Response)
    requires id in db.devices && response.ManifestServed?
    requires next == WithOffer(Checked(Seen(db, id, now), id, req.reportedVersion, now), id, response.release)
    ensures PollRecords(db, id, req, true, now, next, response)
  {
    var checked := Checked(Seen(db, id, now), id, req.reportedVersion, now);
    assert AlreadyOffered(checked, id, response.release.version) <==> WasOffered(db, id, response.release.version);
  }

  lemma PollIsRecorded(
    hash: string -> string, db: Db, objects: Objects, req: Request, allowed: bool, now: int, reachable: bool,
    next: Db, response: Response, id: int)
    requires PoliciesSound(db) && SerialsUnique(db) && Identify(db, hash, req.credentials) == Success(id)
    requires Polls(hash, db, objects, req, allowed, now, reachable, next, response)
    ensures id in db.devices && PollRecords(db, id, req, allowed, now, next, response)
  {
    IdentifyIsProof(db, hash, req.credentials);
    if response.ManifestServed? {
      OfferIsRecorded(db, id, req, now, next, response);
    } else {
      CheckIsRecorded(db, id, req, allowed, now, next, response);
    }
  }

  /** A request that is not authenticated leaves nothing behind, and a download of an
      authenticated one that the device was seen. */
  lemma DownloadIsRecorded(
    hash: string -> string, db: Db, objects: Objects, req: Request, version: string, filename: string,
    allowed: bool, now: int, reachable: bool, next: Db, response: Response)
    requires PoliciesSound(db) && SerialsUnique(db)
    requires Downloads(hash, db, objects, req, version, filename, allowed, now, reachable, next, response)
    ensures Identify(db, hash, req.credentials).Failure? ==> next == db
    ensures Identify(db, hash, req.credentials).Success? ==>
              var id := Identify(db, hash, req.credentials).value;
              && id in db.devices && next == db.(devices := next.devices)
              && next.devices.Keys == db.devices.Keys
              && (forall j :: j in db.devices && j != id ==> next.devices[j] == db.devices[j])
              && next.devices[id].lastSeenAt == Some(now)
              && next.devices[id] == db.devices[id].(lastSeenAt := next.devices[id].lastSeenAt)
  {
    IdentifyIsProof(db, hash, req.credentials);
  }

  /** A completed delivery is recorded once, with the version the device is known to run
      by then and the bytes served, if both rows still exist and the record commits. */
  lemma CompletionIsRecorded(db: Db, ticket: Ticket, records: bool)
    ensures
      var next := Completed(db, ticket, records);
      && next == db.(attempts := next.attempts)
      && next.attempts
         == if records && ticket.deviceId in db.devices && ticket.releaseId in db.releases
            then db.attempts + [Attempt(ticket.deviceId, ticket.releaseId, db.devices[ticket.deviceId].currentVersion,
                                        db.releases[ticket.releaseId].version, DownloadServed, Some(ticket.size))]
            else db.attempts
  {
  }
}
