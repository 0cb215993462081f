/** What a device can rely on: offers that can be downloaded, bytes that match the
    signed manifest, and no integrity failure while the store answers. */
module OtaSafety {
  import opened Wrappers
  import opened Text
  import opened Tables
  import opened Version
  import opened UpdatePath
  import opened Policies
  import opened DeviceAuth
  import opened Firmware
  import opened ReleaseSafety
  import opened UpdateDecisions
  import opened Ota

  /** The columns of a device that no request writes. */
  ghost predicate SameRegistration(d: Device, e: Device) {
    && d.typeId == e.typeId && d.serial == e.serial && d.mac == e.mac
    && d.status == e.status && d.otaEnabled == e.otaEnabled
  }

  /** `next` differs from `db` in what the endpoints write: a device's timestamps and
      version columns, and attempts, which are only added. */
  ghost predicate OnlyEvidenceChanged(db: Db, next: Db) {
    && next.types == db.types && next.tokens == db.tokens && next.policies == db.policies
    && next.releases == db.releases && next.communications == db.communications && next.nextId == db.nextId
    && next.devices.Keys == db.devices.Keys
    && (forall a :: a in db.attempts ==> a in next.attempts)
    && forall id :: id in db.devices ==> SameRegistration(db.devices[id], next.devices[id])
  }

  lemma RowWriteIsEvidence(db: Db, id: int, row: Device)
    requires id in db.devices && SameRegistration(db.devices[id], row)
    ensures OnlyEvidenceChanged(db, db.(devices := db.devices[id := row]))
  {
  }

  lemma NewAttemptIsEvidence(db: Db, a: Attempt)
    ensures OnlyEvidenceChanged(db, db.(attempts := db.attempts + [a]))
  {
  }

  lemma StepsAreEvidence(db: Db, id: int, reported: Option<string>, now: int, r: Release)
    requires id in db.devices
    ensures OnlyEvidenceChanged(db, Seen(db, id, now))
    ensures OnlyEvidenceChanged(db, Checked(db, id, reported, now))
    ensures OnlyEvidenceChanged(db, WithOffer(db, id, r))
  {
    RowWriteIsEvidence(db, id, Seen(db, id, now).devices[id]);
    RowWriteIsEvidence(db, id, Checked(db, id, reported, now).devices[id]);
    NewAttemptIsEvidence(db, Attempt(id, r.id, db.devices[id].currentVersion, r.version, UpdateOffered, None));
  }

  lemma EvidenceAddsUp(a: Db, b: Db, c: Db)
    requires OnlyEvidenceChanged(a, b) && OnlyEvidenceChanged(b, c)
    ensures OnlyEvidenceChanged(a, c)
  {
  }

  lemma PollChangesEvidenceOnly(
    hash: string -> string, db: Db, objects: Objects, req: Request, allowed: bool, now: int, reachable: bool,
    next: Db, response: Response)
    requires PoliciesSound(db) && SerialsUnique(db)
    requires Polls(hash, db, objects, req, allowed, now, reachable, next, response)
    ensures OnlyEvidenceChanged(db, next)
  {
    IdentifyIsProof(db, hash, req.credentials);
    var who := Identify(db, hash, req.credentials);
    if who.Success? {
      var seen := Seen(db, who.value, now);
      var checked := Checked(seen, who.value, req.reportedVersion, now);
      assert next == seen || next == checked || exists r :: next == WithOffer(checked, who.value, r);
      PollStepsAreEvidence(db, who.value, req.reportedVersion, now, next);
    }
  }

  lemma PollStepsAreEvidence(db: Db, id: int, reported: Option<string>, now: int, next: Db)
    requires id in db.devices
    requires
      var seen := Seen(db, id, now);
      var checked := Checked(seen, id, reported, now);
      next == seen || next == checked || exists r :: next == WithOffer(checked, id, r)
    ensures OnlyEvidenceChanged(db, next)
  {
    var seen := Seen(db, id, now);
    var checked := Checked(seen, id, reported, now);
    var r: Release :| next == seen || next == checked || next == WithOffer(checked, id, r);
    StepsAreEvidence(db, id, reported, now, r);
    StepsAreEvidence(seen, id, reported, now, r);
    StepsAreEvidence(checked, id, reported, now, r);
    EvidenceAddsUp(db, seen, checked);
    EvidenceAddsUp(db, checked, WithOffer(checked, id, r));
  }

  lemma DownloadChangesEvidenceOnly(
    hash: string -> string, db: Db, objects: Objects, req: Request, version: string, filename: string,
    allowed: bool, now: int, reachable: bool, next: Db, response: Response)
    requires PoliciesSound(db) && SerialsUnique(db)
    requires Downloads(hash, db, objects, req, version, filename, allowed, now, reachable, next, response)
    ensures OnlyEvidenceChanged(db, next)
  {
  }

  lemma EvidenceKeepsSound(cfg: Config, db: Db, next: Db, objects: Objects)
    requires StateSound(cfg, db, objects) && OnlyEvidenceChanged(db, next)
    ensures StateSound(cfg, next, objects)
  {
  }

  lemma EvidenceKeepsIdentity(db: Db, next: Db, hash: string -> string, c: Credentials)
    requires SerialsUnique(db) && OnlyEvidenceChanged(db, next)
    ensures SerialsUnique(next) && Identify(next, hash, c) == Identify(db, hash, c)
  {
    forall id
      ensures Proves(db, hash, c, id) <==> Proves(next, hash, c, id)
    {
      if !Absent(c.token) {
        assert forall t :: Holds(db, id, t, hash(c.token.value)) <==> Holds(next, id, t, hash(c.token.value));
      }
    }
    assert KnownSerial(db, c) <==> KnownSerial(next, c);
    assert Blocked(db, c) <==> Blocked(next, c);
    IdentifyIsProof(db, hash, c);
    IdentifyIsProof(next, hash, c);
  }

  /** What a served manifest says about the poll that got it. */
  lemma ServedMeansOffered(
    hash: string -> string, db: Db, objects: Objects, req: Request, allowed: bool, now: int, reachable: bool,
    next: Db, response: Response) returns (id: int, checked: Db, d: Decision)
    requires PoliciesSound(db) && SerialsUnique(db)
    requires Polls(hash, db, objects, req, allowed, now, reachable, next, response)
    requires response.ManifestServed?
    ensures Identify(db, hash, req.credentials) == Success(id) && id in db.devices && allowed && reachable
    ensures checked == Checked(Seen(db, id, now), id, req.reportedVersion, now)
    ensures Decides(checked, id, req.code, req.platform, now, d) && d.available
    ensures d.release == Some(response.release) && next == WithOffer(checked, id, response.release)
    ensures
      var r := response.release;
      r.manifest.Some? && r.manifest.value.storageKey in objects
      && response.body == objects[r.manifest.value.storageKey]
  {
    IdentifyIsProof(db, hash, req.credentials);
    id := Identify(db, hash, req.credentials).value;
    checked := Checked(Seen(db, id, now), id, req.reportedVersion, now);
    d :| Decides(checked, id, req.code, req.platform, now, d)
         && AnswersPoll(checked, objects, id, d, reachable, next, response);
  }

  /** While the object store answers, no poll ends in an outage: the branches for a
      missing manifest row or object are unreachable in a sound state. */
  lemma PollOutageMeansStore(
    cfg: Config, hash: string -> string, db: Db, objects: Objects, req: Request, allowed: bool, now: int,
    reachable: bool, next: Db, response: Response)
    requires StateSound(cfg, db, objects)
    requires Polls(hash, db, objects, req, allowed, now, reachable, next, response)
    ensures response.Unavailable? ==> !reachable && response.outage == StoreUnavailable
  {
    IdentifyIsProof(db, hash, req.credentials);
    if response.Unavailable? {
      var id := Identify(db, hash, req.credentials).value;
      var checked := Checked(Seen(db, id, now), id, req.reportedVersion, now);
      var d :| Decides(checked, id, req.code, req.platform, now, d)
               && AnswersPoll(checked, objects, id, d, reachable, next, response);
      OfferIsEntitled(checked, id, req.code, req.platform, now, d);
      assert ReleaseSound(cfg, db, objects, d.release.value.id);
    }
  }

  /** The same for downloads: the stored artifact always has its published size. */
  lemma DownloadOutageMeansStore(
    cfg: Config, hash: string -> string, db: Db, objects: Objects, req: Request, version: string,
    filename: string, allowed: bool, now: int, reachable: bool, next: Db, response: Response)
    requires StateSound(cfg, db, objects)
    requires Downloads(hash, db, objects, req, version, filename, allowed, now, reachable, next, response)
    ensures response.Unavailable? ==> !reachable && response.outage == StoreUnavailable
  {
  }

  /** A poll is answered 403, which locks the device out, exactly when both headers
      are present and no admitted device has the serial. */
  lemma PollLocksOutIff(
    hash: string -> string, db: Db, objects: Objects, req: Request, allowed: bool, now: int, reachable: bool,
    next: Db, response: Response)
    requires PoliciesSound(db) && SerialsUnique(db)
    requires Polls(hash, db, objects, req, allowed, now, reachable, next, response)
    ensures StatusCode(response) == 403
            <==> && !Absent(req.credentials.serial) && !Absent(req.credentials.token)
                 && !exists id :: Admitted(db, req.credentials, id)
  {
    LockoutIffNotAdmitted(db, hash, req.credentials);
  }

  /* ----- from the offer to the bytes ----- */

  /** How the delivery route reads a URL: by its last five path segments, whatever
      base the URL was composed under. */
  ghost predicate RoutesTo(url: string, code: string, platform: string, version: string, filename: string) {
    var parts := Split(url, '/');
    |parts| > 5 && parts[|parts| - 5..] == ["firmware", code, platform, "v" + version, filename]
  }

  lemma ComposedUrlRoutes(base: string, code: string, platform: string, version: string, filename: string)
    requires FirmwareUrl(base, code, platform, version, filename).Success?
    ensures RoutesTo(FirmwareUrl(base, code, platform, version, filename).value, code, platform, version, filename)
  {
    var key := ObjectKey(code, platform, version, filename);
    var host := StripSlashes(base);
    KeysMirrorPaths(code, platform, version, filename);
    ValidIsSlashFree(code, platform, version, filename);
    SplitOfKey(code, platform, version, filename);
    SplitOfConcat(host, key, '/');
    assert FirmwareUrl(base, code, platform, version, filename).value == host + "/" + key;
    var parts := Split(host, '/') + Split(key, '/');
    assert parts[|parts| - 5..] == Split(key, '/');
  }

  /** The URL of a release routes to the release's own path segments. */
  lemma UrlRoutesToRelease(cfg: Config, db: Db, objects: Objects, r: Release)
    requires ReleasesSound(cfg, db, objects) && r.id in db.releases && db.releases[r.id] == r
    ensures r.typeId in db.types && r.manifest.Some? && r.artifact.Some?
    ensures
      var t := db.types[r.typeId];
      RoutesTo(r.manifest.value.url, t.code, t.platform, r.version, r.artifact.value.filename)
  {
    assert ReleaseSound(cfg, db, objects, r.id);
    var t, url, filename := db.types[r.typeId], r.manifest.value.url, r.artifact.value.filename;
    var base :| FirmwareUrl(base, t.code, t.platform, r.version, filename) == Success(url);
    ComposedUrlRoutes(base, t.code, t.platform, r.version, filename);
  }

  /** `r` is what the firmware endpoint resolves for its own version and filename. */
  lemma ResolvesToItself(cfg: Config, db: Db, objects: Objects, r: Release)
    requires ReleasesSound(cfg, db, objects) && r.id in db.releases && db.releases[r.id] == r
    requires r.status.Published? || r.status.Deprecated?
    ensures r.artifact.Some?
    ensures ResolveRelease(db, r.typeId, r.version, r.artifact.value.filename) == Some(r)
  {
    assert ReleaseSound(cfg, db, objects, r.id);
    assert IsDeliverable(db, r.typeId, r.version, r.id);
    forall id | IsDeliverable(db, r.typeId, r.version, id)
      ensures id == r.id
    {
    }
  }

  ghost predicate IsDeliverableStatus(status: ReleaseStatus) {
    status.Published? || status.Deprecated?
  }

  /** The release itself, with as many bytes as its manifest says and the checksum it
      says. */
  ghost predicate Carries(cfg: Config, response: Response, r: Release) {
    && response.FirmwareServed? && response.release == r && r.manifest.Some?
    && response.contentLength == |response.stream| == r.manifest.value.size
    && cfg.md5(response.stream) == r.manifest.value.md5
  }

  /** Exactly when bytes are served: a request for a release's own version and filename
      by a device of its type, with limiter and store willing, is served iff the release
      is published or deprecated, the device is eligible on the path it names, and its
      policy permits the release; and then it is served that very release. */
  lemma ReleaseIsServedIff(
    cfg: Config, db: Db, objects: Objects, r: Release, id: int, req: Request, now: int)
    requires StateSound(cfg, db, objects) && id in db.devices
    requires r.id in db.releases && db.releases[r.id] == r && db.devices[id].typeId == r.typeId
    ensures r.artifact.Some? && IsValidVersion(r.version)
    ensures
      var response := DownloadsDevice(db, objects, req, r.version, r.artifact.value.filename, id, true, now, true);
      && (response.FirmwareServed?
          <==> && IsDeliverableStatus(r.status)
               && CheckEligibility(db, db.devices[id], req.code, req.platform).None?
               && AllowsDelivery(db, id, r.typeId, r, now))
      && (response.FirmwareServed? ==> Carries(cfg, response, r))
  {
    assert ReleaseSound(cfg, db, objects, r.id);
    if IsDeliverableStatus(r.status) {
      ResolvesToItself(cfg, db, objects, r);
    } else {
      UndeliverableIsUnknown(db, r);
    }
  }

  /** A release that is neither published nor deprecated does not resolve. */
  lemma UndeliverableIsUnknown(db: Db, r: Release)
    requires VersionsUnique(db) && r.id in db.releases && db.releases[r.id] == r && r.artifact.Some?
    requires !IsDeliverableStatus(r.status)
    ensures ResolveRelease(db, r.typeId, r.version, r.artifact.value.filename).None?
  {
    forall id
      ensures !IsDeliverable(db, r.typeId, r.version, id)
    {
    }
  }

  /** In particular deprecating a release takes nothing from a device that may have its
      bytes: the same request is served the same bytes, of a now deprecated release. */
  lemma DeprecationKeepsDelivery(
    cfg: Config, db: Db, objects: Objects, r: Release, id: int, req: Request, now: int)
    requires StateSound(cfg, db, objects) && id in db.devices
    requires r.id in db.releases && db.releases[r.id] == r && db.devices[id].typeId == r.typeId
    requires r.status.Published? && r.artifact.Some?
    requires
      DownloadsDevice(db, objects, req, r.version, r.artifact.value.filename, id, true, now, true).FirmwareServed?
    ensures DeprecateRelease(db, r.id).Success?
    ensures
      var after := DeprecateRelease(db, r.id).value;
      && PoliciesSound(after)
      && var before := DownloadsDevice(db, objects, req, r.version, r.artifact.value.filename, id, true, now, true);
         DownloadsDevice(after, objects, req, r.version, r.artifact.value.filename, id, true, now, true)
         == before.(release := r.(status := Deprecated))
  {
    var after := DeprecateRelease(db, r.id).value;
    StatusKeepsSound(cfg, db, objects, r.id, Deprecated);
    ReleaseIsServedIff(cfg, db, objects, r, id, req, now);
    ReleaseIsServedIff(cfg, after, objects, r.(status := Deprecated), id, req, now);
    ResolvesToItself(cfg, db, objects, r);
    ResolvesToItself(cfg, after, objects, r.(status := Deprecated));
  }

  /** After a served poll everything the download will look at stands as it stood
      for the offer. */
  lemma OfferStands(
    cfg: Config, hash: string -> string, db: Db, objects: Objects, req: Request, allowed: bool, now: int,
    reachable: bool, next: Db, offer: Response) returns (id: int)
    requires StateSound(cfg, db, objects)
    requires Polls(hash, db, objects, req, allowed, now, reachable, next, offer) && offer.ManifestServed?
    ensures id in next.devices && Identify(next, hash, req.credentials) == Success(id)
    ensures StateSound(cfg, next, objects) && StateSound(cfg, Seen(next, id, now), objects)
    ensures
      var r, seen := offer.release, Seen(next, id, now);
      && r.id in seen.releases && seen.releases[r.id] == r && r.status.Published? && IsValidVersion(r.version)
      && r.manifest.Some? && r.manifest.value.storageKey in objects
      && offer.body == objects[r.manifest.value.storageKey]
      && seen.devices[id].typeId == r.typeId
      && CheckEligibility(seen, seen.devices[id], req.code, req.platform).None?
      && r.typeId in seen.types
      && req.code == seen.types[r.typeId].code && req.platform == seen.types[r.typeId].platform
      && AllowsDelivery(seen, id, r.typeId, r, now)
  {
    var checked, d;
    id, checked, d := ServedMeansOffered(hash, db, objects, req, allowed, now, reachable, next, offer);
    PollStepsAreEvidence(db, id, req.reportedVersion, now, checked);
    PollStepsAreEvidence(db, id, req.reportedVersion, now, next);
    EvidenceKeepsSound(cfg, db, checked, objects);
    EvidenceKeepsSound(cfg, db, next, objects);
    EvidenceKeepsIdentity(db, next, hash, req.credentials);
    GatesStand(cfg, checked, objects, req, id, now, d, next);
  }

  lemma GatesStand(
    cfg: Config, checked: Db, objects: Objects, req: Request, id: int, now: int, d: Decision, next: Db)
    requires StateSound(cfg, checked, objects) && id in checked.devices
    requires Decides(checked, id, req.code, req.platform, now, d) && d.available && d.release.Some?
    requires next == WithOffer(checked, id, d.release.value)
    ensures StateSound(cfg, Seen(next, id, now), objects)
    ensures
      var r, seen := d.release.value, Seen(next, id, now);
      && r.id in seen.releases && seen.releases[r.id] == r && r.status.Published? && IsValidVersion(r.version)
      && seen.devices[id].typeId == r.typeId
      && CheckEligibility(seen, seen.devices[id], req.code, req.platform).None?
      && r.typeId in seen.types
      && req.code == seen.types[r.typeId].code && req.platform == seen.types[r.typeId].platform
      && AllowsDelivery(seen, id, r.typeId, r, now)
  {
    var seen := Seen(next, id, now);
    OfferIsEntitled(checked, id, req.code, req.platform, now, d);
    StepsAreEvidence(checked, id, None, now, d.release.value);
    StepsAreEvidence(next, id, None, now, d.release.value);
    EvidenceAddsUp(checked, next, seen);
    EvidenceKeepsSound(cfg, checked, seen, objects);
    SameGates(checked, seen, id, req.code, req.platform, d.release.value, now);
  }

  lemma ManifestOfRelease(cfg: Config, db: Db, objects: Objects, r: Release)
    requires ReleasesSound(cfg, db, objects) && r.id in db.releases && db.releases[r.id] == r
    ensures r.manifest.Some? && r.manifest.value.storageKey in objects
    ensures ManifestMatches(cfg, objects[r.manifest.value.storageKey], r.manifest.value)
  {
  }

  /** A URL of a release routes nowhere but to the release's own segments. */
  lemma RoutedSegments(
    cfg: Config, db: Db, objects: Objects, r: Release,
    code: string, platform: string, version: string, filename: string)
    requires ReleasesSound(cfg, db, objects) && r.id in db.releases && db.releases[r.id] == r
    requires r.manifest.Some? ==>
               RoutesTo(r.manifest.value.url, code, platform, version, filename)
    ensures r.typeId in db.types && r.artifact.Some?
    ensures code == db.types[r.typeId].code && platform == db.types[r.typeId].platform
    ensures version == r.version && filename == r.artifact.value.filename
  {
    UrlRoutesToRelease(cfg, db, objects, r);
    var t := db.types[r.typeId];
    var mine := ["firmware", t.code, t.platform, "v" + r.version, r.artifact.value.filename];
    var theirs := ["firmware", code, platform, "v" + version, filename];
    assert mine[1] == theirs[1] && mine[2] == theirs[2] && mine[3] == theirs[3] && mine[4] == theirs[4];
    assert mine[3][1..] == r.version && theirs[3][1..] == version;
  }

  lemma SameGates(db: Db, next: Db, id: int, code: string, platform: string, r: Release, now: int)
    requires id in db.devices && PoliciesSound(db) && OnlyEvidenceChanged(db, next) && IsValidVersion(r.version)
    ensures PoliciesSound(next)
    ensures CheckEligibility(next, next.devices[id], code, platform)
            == CheckEligibility(db, db.devices[id], code, platform)
    ensures next.devices[id].typeId == db.devices[id].typeId
    ensures AllowsDelivery(next, id, db.devices[id].typeId, r, now)
            == AllowsDelivery(db, id, db.devices[id].typeId, r, now)
  {
  }
}
