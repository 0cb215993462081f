/** From the signed manifest to the bytes over a whole run: a manifest served once
    stands for one release, and this says exactly when its URL still works. */
module Delivery {
  import opened Wrappers
  import opened Text
  import opened Tables
  import opened Version
  import opened ManifestRules
  import opened Policies
  import opened Devices
  import opened DeviceAuth
  import opened Firmware
  import opened ReleaseSafety
  import opened UpdateDecisions
  import opened Ota
  import opened OtaSafety
  import opened World
  import opened Lifecycle

  /* ----- following a manifest ----- */

  ghost predicate IsOffer(op: Op) {
    op.Poll? && op.response.ManifestServed?
  }

  /** The download asks for the URL in the manifest `body`; limiter and store are
      willing. It may come at any later instant. */
  ghost predicate FollowsUrl(cfg: Config, body: bytes, download: Op) {
    && download.Download? && download.allowed && download.reachable
    && var m := ParseManifest(cfg.decoders, body);
       m.Success? ==> RoutesTo(m.value.url, download.req.code, download.req.platform,
                               download.version, download.filename)
  }

  /** What the manifest said, and what the download brought. */
  ghost predicate Delivers(cfg: Config, body: bytes, response: Response) {
    && ParseManifest(cfg.decoders, body).Success?
    && var m := ParseManifest(cfg.decoders, body).value;
       && response.FirmwareServed? && response.release.version == m.version
       && response.contentLength == |response.stream| == m.size
       && cfg.md5(response.stream) == m.md5
       && (response.release.manifest.Some? && response.release.manifest.value.signatureVerified ==>
             cfg.verify(m.version + "|" + m.url + "|" + m.md5 + "|" + Render(m.size), m.signatureBytes))
  }

  /** The device may have the release's bytes at this instant. */
  ghost predicate MayReceive(db: Db, id: int, r: Release, now: int) {
    && PoliciesSound(db) && IsValidVersion(r.version)
    && IsDeliverableStatus(r.status) && Enabled(db, id)
    && AllowsDelivery(db, id, r.typeId, r, now)
  }

  /** The manifest of a sound release speaks of that release. */
  ghost predicate Describes(cfg: Config, body: bytes, r: Release) {
    && r.manifest.Some? && ManifestMatches(cfg, body, r.manifest.value) && r.manifest.value.version == r.version
  }

  /* ----- at the poll ----- */

  lemma PollAt(cfg: Config, hash: string -> string, worlds: seq<World>, ops: seq<Op>, i: nat)
    requires IsRun(cfg, hash, worlds, ops) && worlds[0] == INITIAL && i < |ops| && ops[i].Poll?
    ensures StateSound(cfg, worlds[i].db, worlds[i].objects) && worlds[i + 1].objects == worlds[i].objects
    ensures Polls(hash, worlds[i].db, worlds[i].objects, ops[i].req, ops[i].allowed, ops[i].now, ops[i].reachable,
                  worlds[i + 1].db, ops[i].response)
  {
    RunIsSound(cfg, hash, worlds, ops, i);
    assert StepAt(cfg, hash, worlds, ops, i);
  }

  lemma DownloadAt(cfg: Config, hash: string -> string, worlds: seq<World>, ops: seq<Op>, i: nat)
    requires IsRun(cfg, hash, worlds, ops) && worlds[0] == INITIAL && i < |ops| && ops[i].Download?
    ensures StateSound(cfg, worlds[i].db, worlds[i].objects)
    ensures Downloads(hash, worlds[i].db, worlds[i].objects, ops[i].req, ops[i].version, ops[i].filename,
                      ops[i].allowed, ops[i].now, ops[i].reachable, worlds[i + 1].db, ops[i].response)
  {
    RunIsSound(cfg, hash, worlds, ops, i);
    assert StepAt(cfg, hash, worlds, ops, i);
  }

  lemma OfferedRelease(cfg: Config, hash: string -> string, w: World, op: Op, next: Db, id: int)
    requires StateSound(cfg, w.db, w.objects) && IsOffer(op) && Authenticates(w.db, hash, op, id)
    requires Polls(hash, w.db, w.objects, op.req, op.allowed, op.now, op.reachable, next, op.response)
    ensures
      var r := op.response.release;
      && r.id in w.db.releases && w.db.releases[r.id] == r && Describes(cfg, op.response.body, r)
      && id in w.db.devices && IdentityLocked(w.db, id) && w.db.devices[id].typeId == r.typeId
  {
    var who, checked, d := ServedMeansOffered(
      hash, w.db, w.objects, op.req, op.allowed, op.now, op.reachable, next, op.response);
    OfferIsEntitled(checked, who, op.req.code, op.req.platform, op.now, d);
    AuthenticatedIsLocked(w.db, hash, op.req.credentials, id);
    ManifestOfRelease(cfg, w.db, w.objects, op.response.release);
    assert ReleaseSound(cfg, w.db, w.objects, op.response.release.id);
  }

  /* ----- at the download ----- */

  /** Following the manifest of a release of the device's type is served exactly when
      the device may receive it, and brings what the manifest said. */
  lemma AnswerIff(cfg: Config, w: World, op: Op, id: int, body: bytes, r: Release)
    requires StateSound(cfg, w.db, w.objects) && id in w.db.devices && FollowsUrl(cfg, body, op)
    requires r.id in w.db.releases && w.db.releases[r.id] == r && Describes(cfg, body, r)
    requires w.db.devices[id].typeId == r.typeId
    ensures
      var seen := Seen(w.db, id, op.now);
      && PoliciesSound(seen)
      && var response := DownloadsDevice(seen, w.objects, op.req, op.version, op.filename, id, true, op.now, true);
         && (response.FirmwareServed? <==> MayReceive(w.db, id, r, op.now))
         && (response.FirmwareServed? ==> response.release == r && Delivers(cfg, body, response))
  {
    var seen := Seen(w.db, id, op.now);
    RowWriteIsEvidence(w.db, id, seen.devices[id]);
    EvidenceKeepsSound(cfg, w.db, seen, w.objects);
    RoutedSegments(cfg, seen, w.objects, r, op.req.code, op.req.platform, op.version, op.filename);
    ReleaseIsServedIff(cfg, seen, w.objects, r, id, op.req, op.now);
    SameGates(w.db, seen, id, op.req.code, op.req.platform, r, op.now);
  }

  lemma AdmittedAnswer(hash: string -> string, w: World, op: Op, next: Db, id: int)
    requires PoliciesSound(w.db) && SerialsUnique(w.db)
    requires op.Download? && op.allowed && op.reachable && Authenticates(w.db, hash, op, id)
    requires Downloads(hash, w.db, w.objects, op.req, op.version, op.filename, op.allowed, op.now, op.reachable,
                       next, op.response)
    ensures id in w.db.devices && PoliciesSound(Seen(w.db, id, op.now))
    ensures op.response
            == DownloadsDevice(Seen(w.db, id, op.now), w.objects, op.req, op.version, op.filename, id, true, op.now,
                               true)
  {
    IdentifyIsProof(w.db, hash, op.req.credentials);
  }

  /* ----- in between ----- */

  /** The row as it stands later: only its status may have changed. */
  function AsOf(r: Release, w: World): Release
    requires r.id in w.db.releases
  {
    r.(status := w.db.releases[r.id].status)
  }

  lemma OfferStandsLater(
    cfg: Config, hash: string -> string, worlds: seq<World>, ops: seq<Op>, i: nat, j: nat, id: int)
    requires IsRun(cfg, hash, worlds, ops) && worlds[0] == INITIAL && i < j < |ops|
    requires IsOffer(ops[i]) && Authenticates(worlds[i].db, hash, ops[i], id)
    requires Authenticates(worlds[j].db, hash, ops[j], id)
    ensures
      var r := ops[i].response.release;
      && r.id in worlds[j].db.releases && worlds[j].db.releases[r.id] == AsOf(r, worlds[j])
      && Describes(cfg, ops[i].response.body, AsOf(r, worlds[j]))
      && id in worlds[j].db.devices && worlds[j].db.devices[id].typeId == r.typeId
  {
    OfferedAt(cfg, hash, worlds, ops, i, id);
    ReleasesAreImmutable(cfg, hash, worlds, ops, i, j, ops[i].response.release.id);
    AuthenticatedAt(cfg, hash, worlds, ops, j, id);
    LockedIdentityIsFixed(cfg, hash, worlds, ops, i, j, id);
  }

  lemma OfferedAt(cfg: Config, hash: string -> string, worlds: seq<World>, ops: seq<Op>, i: nat, id: int)
    requires IsRun(cfg, hash, worlds, ops) && worlds[0] == INITIAL && i < |ops|
    requires IsOffer(ops[i]) && Authenticates(worlds[i].db, hash, ops[i], id)
    ensures
      var r := ops[i].response.release;
      && r.id in worlds[i].db.releases && worlds[i].db.releases[r.id] == r
      && Describes(cfg, ops[i].response.body, r)
      && id in worlds[i].db.devices && IdentityLocked(worlds[i].db, id)
      && worlds[i].db.devices[id].typeId == r.typeId
  {
    PollAt(cfg, hash, worlds, ops, i);
    OfferedRelease(cfg, hash, worlds[i], ops[i], worlds[i + 1].db, id);
  }

  lemma AuthenticatedAt(cfg: Config, hash: string -> string, worlds: seq<World>, ops: seq<Op>, j: nat, id: int)
    requires IsRun(cfg, hash, worlds, ops) && worlds[0] == INITIAL && j < |ops|
    requires Authenticates(worlds[j].db, hash, ops[j], id)
    ensures id in worlds[j].db.devices
  {
    RunIsSound(cfg, hash, worlds, ops, j);
    AuthenticatedIsLocked(worlds[j].db, hash, ops[j].req.credentials, id);
  }

  lemma FollowedAt(
    cfg: Config, hash: string -> string, worlds: seq<World>, ops: seq<Op>, j: nat, id: int, body: bytes, r: Release)
    requires IsRun(cfg, hash, worlds, ops) && worlds[0] == INITIAL && j < |ops|
    requires FollowsUrl(cfg, body, ops[j]) && Authenticates(worlds[j].db, hash, ops[j], id)
    requires r.id in worlds[j].db.releases && worlds[j].db.releases[r.id] == r && Describes(cfg, body, r)
    requires id in worlds[j].db.devices && worlds[j].db.devices[id].typeId == r.typeId
    ensures ops[j].response.FirmwareServed? <==> MayReceive(worlds[j].db, id, r, ops[j].now)
    ensures ops[j].response.FirmwareServed? ==> ops[j].response.release == r && Delivers(cfg, body, ops[j].response)
  {
    DownloadAt(cfg, hash, worlds, ops, j);
    AdmittedAnswer(hash, worlds[j], ops[j], worlds[j + 1].db, id);
    AnswerIff(cfg, worlds[j], ops[j], id, body, r);
  }

  /** A signed manifest is good for as long as its release may be delivered. In every
      run, whatever happens between a served manifest and a later download of its URL
      by the same device: the release is still the offered one but for its status, the
      download is served exactly when the device may receive it as it stands by then,
      published or deprecated, superseded or not, and it brings the size and checksum
      the manifest said. */
  lemma OfferedThenDelivered(
    cfg: Config, hash: string -> string, worlds: seq<World>, ops: seq<Op>, i: nat, j: nat, id: int)
    requires IsRun(cfg, hash, worlds, ops) && worlds[0] == INITIAL && i < j < |ops|
    requires IsOffer(ops[i]) && Authenticates(worlds[i].db, hash, ops[i], id)
    requires FollowsUrl(cfg, ops[i].response.body, ops[j]) && Authenticates(worlds[j].db, hash, ops[j], id)
    ensures
      var r := ops[i].response.release;
      && r.id in worlds[j].db.releases && worlds[j].db.releases[r.id] == AsOf(r, worlds[j])
      && (ops[j].response.FirmwareServed? <==> MayReceive(worlds[j].db, id, AsOf(r, worlds[j]), ops[j].now))
      && (ops[j].response.FirmwareServed? ==>
            ops[j].response.release == AsOf(r, worlds[j])
            && Delivers(cfg, ops[i].response.body, ops[j].response))
  {
    OfferStandsLater(cfg, hash, worlds, ops, i, j, id);
    FollowedAt(cfg, hash, worlds, ops, j, id, ops[i].response.body, AsOf(ops[i].response.release, worlds[j]));
  }

  /* ----- at once ----- */

  /** Right after the poll the device may receive what it was offered. */
  lemma OfferMayBeReceived(
    cfg: Config, hash: string -> string, db: Db, objects: Objects, op: Op, next: Db) returns (id: int)
    requires StateSound(cfg, db, objects) && IsOffer(op)
    requires Polls(hash, db, objects, op.req, op.allowed, op.now, op.reachable, next, op.response)
    ensures Authenticates(db, hash, op, id) && Identify(next, hash, op.req.credentials) == Success(id)
    ensures
      var r := op.response.release;
      r.id in next.releases && next.releases[r.id] == r && MayReceive(next, id, r, op.now)
  {
    id := OfferStands(cfg, hash, db, objects, op.req, op.allowed, op.now, op.reachable, next, op.response);
    PollChangesEvidenceOnly(hash, db, objects, op.req, op.allowed, op.now, op.reachable, next, op.response);
    EvidenceKeepsIdentity(db, next, hash, op.req.credentials);
    RowWriteIsEvidence(next, id, Seen(next, id, op.now).devices[id]);
    SameGates(next, Seen(next, id, op.now), id, op.req.code, op.req.platform, op.response.release, op.now);
  }

  /** So a device that follows the manifest at once is always served. */
  lemma DeliveredAtOnce(cfg: Config, hash: string -> string, worlds: seq<World>, ops: seq<Op>, i: nat)
    requires IsRun(cfg, hash, worlds, ops) && worlds[0] == INITIAL && i + 1 < |ops|
    requires IsOffer(ops[i]) && FollowsUrl(cfg, ops[i].response.body, ops[i + 1])
    requires ops[i + 1].req.credentials == ops[i].req.credentials && ops[i + 1].now == ops[i].now
    ensures ops[i + 1].response.FirmwareServed? && ops[i + 1].response.release == ops[i].response.release
    ensures Delivers(cfg, ops[i].response.body, ops[i + 1].response)
  {
    PollAt(cfg, hash, worlds, ops, i);
    var id := OfferMayBeReceived(cfg, hash, worlds[i].db, worlds[i].objects, ops[i], worlds[i + 1].db);
    OfferedThenDelivered(cfg, hash, worlds, ops, i, i + 1, id);
  }
}
