/** The release store: upload with compensation across database and object store,
    and the release lifecycle (app/services/firmware.py). */
module Firmware {
  import opened Wrappers
  import opened Tables
  import opened UpdatePath
  import opened ManifestRules

  /** Deployment settings, which may change from one call to the next: the delivery
      base URL, and whether uploads and publications check signatures. */
  datatype Settings = Settings(firmwareBaseUrl: string, verifies: bool)

  /** The settings in force, and the library functions and the public key behind the
      calls. Nothing is assumed about the digest, the decoders or the verifier. */
  datatype Config = Config(
    settings: Settings,
    md5: bytes -> string,
    decoders: Decoders,
    verify: (string, bytes) -> bool)

  function Under(cfg: Config, settings: Settings): Config {
    cfg.(settings := settings)
  }

  /* ----- the object store ----- */

  type Objects = map<string, bytes>

  /** What a write does: it completes, it raises with nothing written, or it raises
      although the object landed. */
  datatype WriteFault = Completes | Refused | LandsButRaises

  function AfterPut(objects: Objects, key: string, data: bytes, fault: WriteFault): Objects {
    if fault.Refused? then objects else objects[key := data]
  }

  class ObjectStore {
    var objects: Objects

    constructor ()
      ensures objects == map[]
    {
      objects := map[];
    }

    method Put(key: string, data: bytes, fault: WriteFault) returns (ok: bool)
      modifies this
      ensures ok <==> fault.Completes?
      ensures objects == AfterPut(old(objects), key, data, fault)
    {
      if !fault.Refused? {
        objects := objects[key := data];
      }
      ok := fault.Completes?;
    }

    /** A missing object and an unreachable store raise alike. */
    method Get(key: string, reachable: bool) returns (data: Option<bytes>)
      ensures data == if reachable && key in objects then Some(objects[key]) else None
    {
      data := if reachable && key in objects then Some(objects[key]) else None;
    }

    method Remove(key: string, reachable: bool)
      modifies this
      ensures objects == if reachable then old(objects) - {key} else old(objects)
    {
      if reachable {
        objects := objects - {key};
      }
    }
  }

  /* ----- upload ----- */

  datatype Upload = Upload(filename: string, data: bytes, manifest: Option<bytes>)

  /** Everything that can go wrong once objects are being written. */
  datatype Faults = Faults(
    artifactPut: WriteFault,
    manifestPut: WriteFault,
    readBack: bool,
    commits: bool,
    removesFirst: bool,
    removesSecond: bool)

  /** A checked upload, ready to be written. */
  datatype Prepared = Prepared(
    artifactKey: string,
    manifestKey: string,
    md5: string,
    manifest: Manifest,
    verified: bool)

  predicate VersionTaken(db: Db, typeId: int, version: string) {
    exists id :: id in db.releases && db.releases[id].typeId == typeId && db.releases[id].version == version
  }

  function CrossCheck(m: Manifest, version: string, md5: string, size: nat, url: string): Option<Code> {
    if m.version != version then Some(ManifestVersionMismatch)
    else if m.md5 != md5 then Some(ManifestMd5Mismatch)
    else if m.size != size then Some(ManifestSizeMismatch)
    else if m.url != url then Some(ManifestUrlMismatch)
    else None
  }

  function Verified(cfg: Config, m: Manifest): bool {
    cfg.verify(SignedPayload(m.version, m.url, m.md5, m.size), m.signatureBytes)
  }

  /** Parse, cross-check and signature gate. */
  ghost function PrepareManifest(cfg: Config, raw: bytes, version: string, md5: string, size: nat, url: string)
    : Result<Manifest, Code>
  {
    var m :- ParseManifest(cfg.decoders, raw);
    if CrossCheck(m, version, md5, size, url).Some? then Failure(CrossCheck(m, version, md5, size, url).value)
    else if cfg.settings.verifies && !Verified(cfg, m) then Failure(InvalidSignature)
    else Success(m)
  }

  /** The gate before anything is written, in the order of the checks. */
  ghost function Prepare(cfg: Config, db: Db, typeId: int, version: string, u: Upload): Result<Prepared, Code> {
    if typeId !in db.types then Failure(DeviceTypeNotFound)
    else if !db.types[typeId].isActive then Failure(DeviceTypeInactive)
    else if ValidateVersion(version).Some? then Failure(InvalidVersion)
    else if ValidateFilename(u.filename).Some? then Failure(InvalidFilename)
    else if VersionTaken(db, typeId, version) then Failure(VersionExists)
    else if u.data == [] then Failure(ArtifactEmpty)
    else if |u.data| > MAX_ARTIFACT_SIZE then Failure(ArtifactTooLarge)
    else if u.manifest.None? || u.manifest.value == [] then Failure(ManifestRequired)
    else
      var t := db.types[typeId];
      var md5 := cfg.md5(u.data);
      var url :- FirmwareUrl(cfg.settings.firmwareBaseUrl, t.code, t.platform, version, u.filename);
      var artifactKey :- StorageKey(t.code, t.platform, version, u.filename);
      var m :- PrepareManifest(cfg, u.manifest.value, version, md5, |u.data|, url);
      var manifestKey :- ManifestStorageKey(t.code, t.platform, version);
      Success(Prepared(artifactKey, manifestKey, md5, m, cfg.settings.verifies))
  }

  function IntactAt(cfg: Config, objects: Objects, key: string, size: nat, md5: string): bool {
    key in objects && |objects[key]| == size && cfg.md5(objects[key]) == md5
  }

  /** The object writes and the read-back: what the store holds when they end, which
      keys a failure has to clean up, and the error that ended them, if any. */
  datatype Transfer = Transfer(objects: Objects, written: seq<string>, error: Option<Code>)

  function TransferObjects(cfg: Config, objects: Objects, p: Prepared, data: bytes, f: Faults): Transfer {
    var first := AfterPut(objects, p.artifactKey, data, f.artifactPut);
    if !f.artifactPut.Completes? then Transfer(first, [p.artifactKey], Some(StorageUnavailable))
    else
      var second := AfterPut(first, p.manifestKey, p.manifest.raw, f.manifestPut);
      if !f.manifestPut.Completes? then Transfer(second, [p.artifactKey], Some(StorageUnavailable))
      else
        var written := [p.artifactKey, p.manifestKey];
        if !f.readBack then Transfer(second, written, Some(StorageUnavailable))
        else if !IntactAt(cfg, second, p.artifactKey, |data|, p.md5)
        then Transfer(second, written, Some(StorageVerificationFailed))
        else Transfer(second, written, None)
  }

  function Reachable(f: Faults, i: nat): bool {
    if i == 0 then f.removesFirst else f.removesSecond
  }

  /** Best-effort removal, key by key. */
  function Discarded(objects: Objects, keys: seq<string>, f: Faults): Objects {
    if keys == [] then objects
    else
      var before := Discarded(objects, keys[..|keys| - 1], f);
      if Reachable(f, |keys| - 1) then before - {keys[|keys| - 1]} else before
  }

  function ReleaseRow(id: int, typeId: int, version: string, u: Upload, p: Prepared): Release {
    var m := p.manifest;
    Release(id, typeId, version, Validated,
            Some(Artifact(p.artifactKey, u.filename, |u.data|, p.md5)),
            Some(ManifestRow(m.version, m.url, m.md5, m.size, m.signature, p.manifestKey, p.verified)))
  }

  datatype Outcome = Outcome(db: Db, objects: Objects, error: Option<Code>)

  /** The row is added, the objects are written, and the call commits or, on any
      error, rolls back and discards. */
  function StoreRelease(
    cfg: Config, db: Db, objects: Objects, typeId: int, version: string, u: Upload, p: Prepared, f: Faults)
    : Outcome
  {
    var t := TransferObjects(cfg, objects, p, u.data, f);
    var error := if t.error.None? && !f.commits then Some(CommitFailed) else t.error;
    if error.Some? then Outcome(db, Discarded(t.objects, t.written, f), error)
    else
      var row := ReleaseRow(db.nextId, typeId, version, u, p);
      Outcome(db.(releases := db.releases[db.nextId := row], nextId := db.nextId + 1), t.objects, None)
  }

  ghost function CreateRelease(
    cfg: Config, db: Db, objects: Objects, typeId: int, version: string, u: Upload, f: Faults): Outcome
  {
    var prepared := Prepare(cfg, db, typeId, version, u);
    if prepared.Failure? then Outcome(db, objects, Some(prepared.error))
    else StoreRelease(cfg, db, objects, typeId, version, u, prepared.value, f)
  }

  /* ----- lifecycle ----- */

  function WithStatus(db: Db, id: int, status: ReleaseStatus): Db
    requires id in db.releases
  {
    db.(releases := db.releases[id := db.releases[id].(status := status)])
  }

  function MarkDraft(db: Db, id: int): Result<Db, Code> {
    if id !in db.releases then Failure(ReleaseNotFound)
    else if !db.releases[id].status.Validated? then Failure(InvalidReleaseTransition)
    else Success(WithStatus(db, id, Draft))
  }

  /** Publication reads the artifact again: a published release must be servable. */
  function PublishRelease(cfg: Config, db: Db, objects: Objects, id: int, reachable: bool): Result<Db, Code> {
    if id !in db.releases then Failure(ReleaseNotFound)
    else
      var r := db.releases[id];
      if !(r.status.Validated? || r.status.Draft?) then Failure(InvalidReleaseTransition)
      else if r.artifact.None? then Failure(ArtifactMissing)
      else if r.manifest.None? then Failure(ManifestRequired)
      else if cfg.settings.verifies && !r.manifest.value.signatureVerified then Failure(SignatureUnverified)
      else
        var a := r.artifact.value;
        if !reachable || a.storageKey !in objects then Failure(StorageUnavailable)
        else if !IntactAt(cfg, objects, a.storageKey, a.size, a.md5) then Failure(ArtifactMismatch)
        else Success(WithStatus(db, id, Published))
  }

  function DeprecateRelease(db: Db, id: int): Result<Db, Code> {
    if id !in db.releases then Failure(ReleaseNotFound)
    else if !db.releases[id].status.Published? then Failure(InvalidReleaseTransition)
    else Success(WithStatus(db, id, Deprecated))
  }

  function ArchiveRelease(db: Db, id: int): Result<Db, Code> {
    if id !in db.releases then Failure(ReleaseNotFound)
    else if db.releases[id].status.Uploaded? || db.releases[id].status.Archived? then
      Failure(InvalidReleaseTransition)
    else Success(WithStatus(db, id, Archived))
  }

  function RestoreRelease(db: Db, id: int): Result<Db, Code> {
    if id !in db.releases then Failure(ReleaseNotFound)
    else if !db.releases[id].status.Archived? then Failure(InvalidReleaseTransition)
    else Success(WithStatus(db, id, Draft))
  }

  /* ----- the service ----- */

  class FirmwareService {
    const session: Session
    const storage: ObjectStore
    const cfg: Config

    constructor (session: Session, storage: ObjectStore, cfg: Config)
      ensures this.session == session && this.storage == storage && this.cfg == cfg
    {
      this.session := session;
      this.storage := storage;
      this.cfg := cfg;
    }

    method PrepareUploadedManifest(raw: bytes, version: string, md5: string, size: nat, url: string)
      returns (r: Result<Manifest, Code>)
      ensures r == PrepareManifest(cfg, raw, version, md5, size, url)
    {
      var parsed := Parse(cfg.decoders, raw);
      if parsed.Failure? {
        return Failure(parsed.error);
      }
      var m := parsed.value;
      var mismatch := CrossCheck(m, version, md5, size, url);
      if mismatch.Some? {
        return Failure(mismatch.value);
      }
      if cfg.settings.verifies && !Verified(cfg, m) {
        return Failure(InvalidSignature);
      }
      return Success(m);
    }

    method CheckUpload(typeId: int, version: string, u: Upload) returns (r: Result<Prepared, Code>)
      ensures r == Prepare(cfg, session.db, typeId, version, u)
    {
      if typeId !in session.db.types {
        return Failure(DeviceTypeNotFound);
      }
      var t := session.db.types[typeId];
      if !t.isActive {
        return Failure(DeviceTypeInactive);
      }
      if ValidateVersion(version).Some? {
        return Failure(InvalidVersion);
      }
      if ValidateFilename(u.filename).Some? {
        return Failure(InvalidFilename);
      }
      if VersionTaken(session.db, typeId, version) {
        return Failure(VersionExists);
      }
      if u.data == [] {
        return Failure(ArtifactEmpty);
      }
      if |u.data| > MAX_ARTIFACT_SIZE {
        return Failure(ArtifactTooLarge);
      }
      if u.manifest.None? || u.manifest.value == [] {
        return Failure(ManifestRequired);
      }
      var md5 := cfg.md5(u.data);
      var url := FirmwareUrl(cfg.settings.firmwareBaseUrl, t.code, t.platform, version, u.filename);
      if url.Failure? {
        return Failure(url.error);
      }
      var artifactKey := StorageKey(t.code, t.platform, version, u.filename);
      if artifactKey.Failure? {
        return Failure(artifactKey.error);
      }
      var m := PrepareUploadedManifest(u.manifest.value, version, md5, |u.data|, url.value);
      if m.Failure? {
        return Failure(m.error);
      }
      var manifestKey := ManifestStorageKey(t.code, t.platform, version);
      if manifestKey.Failure? {
        return Failure(manifestKey.error);
      }
      return Success(Prepared(artifactKey.value, manifestKey.value, md5, m.value, cfg.settings.verifies));
    }

    /** The release row is flushed first; objects, integrity check and commit follow,
        and a failure among them rolls back and discards what was written. */
    method Create(typeId: int, version: string, u: Upload, f: Faults) returns (error: Option<Code>)
      requires session.Clean()
      modifies session, storage
      ensures session.Clean()
      ensures Outcome(session.db, storage.objects, error)
              == CreateRelease(cfg, old(session.db), old(storage.objects), typeId, version, u, f)
    {
      var checked := CheckUpload(typeId, version, u);
      if checked.Failure? {
        return Some(checked.error);
      }
      error := Store(typeId, version, u, checked.value, f);
    }

    method Store(typeId: int, version: string, u: Upload, p: Prepared, f: Faults)
      returns (error: Option<Code>)
      requires session.Clean()
      modifies session, storage
      ensures session.Clean()
      ensures Outcome(session.db, storage.objects, error)
              == StoreRelease(cfg, old(session.db), old(storage.objects), typeId, version, u, p, f)
    {
      var id := session.db.nextId;
      var row := Release(id, typeId, version, Uploaded, None, None);
      session.db := session.db.(releases := session.db.releases[id := row], nextId := id + 1);

      var written, failure := WriteObjects(p, u.data, f);
      if failure.None? {
        row := CompletedRow(row, u, p);
        session.db := session.db.(releases := session.db.releases[id := row]);
        if f.commits {
          session.Commit();
          return None;
        }
        failure := Some(CommitFailed);
      }
      session.Rollback();
      DiscardObjects(written, f);
      return failure;
    }

    /** The artifact key counts as written before its put, the manifest key only
        after; then the artifact is read back. */
    method WriteObjects(p: Prepared, data: bytes, f: Faults)
      returns (written: seq<string>, failure: Option<Code>)
      modifies storage
      ensures Transfer(storage.objects, written, failure)
              == TransferObjects(cfg, old(storage.objects), p, data, f)
    {
      written := [p.artifactKey];
      var ok := storage.Put(p.artifactKey, data, f.artifactPut);
      if !ok {
        return written, Some(StorageUnavailable);
      }
      ok := storage.Put(p.manifestKey, p.manifest.raw, f.manifestPut);
      if !ok {
        return written, Some(StorageUnavailable);
      }
      written := written + [p.manifestKey];
      assert written == [p.artifactKey, p.manifestKey];
      var stored := storage.Get(p.artifactKey, f.readBack);
      if stored.None? {
        return written, Some(StorageUnavailable);
      }
      if |stored.value| != |data| || cfg.md5(stored.value) != p.md5 {
        return written, Some(StorageVerificationFailed);
      }
      failure := None;
    }

    /** Artifact, manifest and final status are attached before the commit. */
    method CompletedRow(row: Release, u: Upload, p: Prepared) returns (completed: Release)
      requires row == Release(row.id, row.typeId, row.version, Uploaded, None, None)
      ensures completed == ReleaseRow(row.id, row.typeId, row.version, u, p)
    {
      var m := p.manifest;
      completed := row.(artifact := Some(Artifact(p.artifactKey, u.filename, |u.data|, p.md5)));
      completed := completed.(manifest := Some(ManifestRow(m.version, m.url, m.md5, m.size, m.signature,
                                                           p.manifestKey, p.verified)));
      completed := completed.(status := Validated);
    }

    method DiscardObjects(keys: seq<string>, f: Faults)
      modifies storage
      ensures storage.objects == Discarded(old(storage.objects), keys, f)
    {
      for i := 0 to |keys|
        invariant storage.objects == Discarded(old(storage.objects), keys[..i], f)
      {
        assert keys[..i + 1][..i] == keys[..i];
        storage.Remove(keys[i], Reachable(f, i));
      }
      assert keys[..|keys|] == keys;
    }

    method Publish(id: int, reachable: bool) returns (error: Option<Code>)
      requires session.Clean()
      modifies session
      ensures session.Clean()
      ensures Settles(old(session.db), session.db,
                      PublishRelease(cfg, old(session.db), storage.objects, id, reachable), error)
    {
      if id !in session.db.releases {
        return Some(ReleaseNotFound);
      }
      var row := session.db.releases[id];
      if !(row.status.Validated? || row.status.Draft?) {
        return Some(InvalidReleaseTransition);
      }
      if row.artifact.None? {
        return Some(ArtifactMissing);
      }
      if row.manifest.None? {
        return Some(ManifestRequired);
      }
      if cfg.settings.verifies && !row.manifest.value.signatureVerified {
        return Some(SignatureUnverified);
      }
      var artifact := row.artifact.value;
      var stored := storage.Get(artifact.storageKey, reachable);
      if stored.None? {
        return Some(StorageUnavailable);
      }
      if |stored.value| != artifact.size || cfg.md5(stored.value) != artifact.md5 {
        return Some(ArtifactMismatch);
      }
      row := row.(status := Published);
      session.db := session.db.(releases := session.db.releases[id := row]);
      session.Commit();
      error := None;
    }

    method Deprecate(id: int) returns (error: Option<Code>)
      requires session.Clean()
      modifies session
      ensures session.Clean()
      ensures Settles(old(session.db), session.db, DeprecateRelease(old(session.db), id), error)
    {
      error := Transition(id, {Published}, Deprecated);
    }

    method Archive(id: int) returns (error: Option<Code>)
      requires session.Clean()
      modifies session
      ensures session.Clean()
      ensures Settles(old(session.db), session.db, ArchiveRelease(old(session.db), id), error)
    {
      error := Transition(id, {Validated, Draft, Published, Deprecated}, Archived);
    }

    method Restore(id: int) returns (error: Option<Code>)
      requires session.Clean()
      modifies session
      ensures session.Clean()
      ensures Settles(old(session.db), session.db, RestoreRelease(old(session.db), id), error)
    {
      error := Transition(id, {Archived}, Draft);
    }

    method MakeDraft(id: int) returns (error: Option<Code>)
      requires session.Clean()
      modifies session
      ensures session.Clean()
      ensures Settles(old(session.db), session.db, MarkDraft(old(session.db), id), error)
    {
      error := Transition(id, {Validated}, Draft);
    }

    /** The shape the four plain transitions share. */
    method Transition(id: int, from: set<ReleaseStatus>, to: ReleaseStatus) returns (error: Option<Code>)
      requires session.Clean()
      modifies session
      ensures session.Clean()
      ensures id !in old(session.db).releases ==> error == Some(ReleaseNotFound)
      ensures id in old(session.db).releases && old(session.db).releases[id].status !in from ==>
                error == Some(InvalidReleaseTransition)
      ensures error.Some? ==> session.db == old(session.db)
      ensures error.None? ==> id in old(session.db).releases && session.db == WithStatus(old(session.db), id, to)
      ensures id in old(session.db).releases && old(session.db).releases[id].status in from ==> error.None?
    {
      if id !in session.db.releases {
        return Some(ReleaseNotFound);
      }
      var row := session.db.releases[id];
      if row.status !in from {
        return Some(InvalidReleaseTransition);
      }
      row := row.(status := to);
      session.db := session.db.(releases := session.db.releases[id := row]);
      session.Commit();
      error := None;
    }
  }
}
