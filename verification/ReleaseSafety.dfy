/** What the release store keeps: every release owns its two objects, and they are
    what its rows say. */
module ReleaseSafety {
  import opened Wrappers
  import opened Text
  import opened Tables
  import opened Version
  import opened UpdatePath
  import opened ManifestRules
  import opened Firmware
  import opened Devices

  /* ----- the invariant ----- */

  ghost predicate TypesSound(db: Db) {
    && (forall id :: id in db.types ==>
          id < db.nextId && ValidateDeviceTypePath(db.types[id].code, db.types[id].platform).None?)
    && (forall i, j :: i in db.types && j in db.types && db.types[i].code == db.types[j].code ==> i == j)
  }

  /** The URL was composed for these parts under the base URL of its day. */
  ghost predicate IsComposedUrl(url: string, code: string, platform: string, version: string, filename: string) {
    exists base :: FirmwareUrl(base, code, platform, version, filename) == Success(url)
  }

  /** The rows of a release agree with each other and with the current code and
      platform of its device type, whatever the settings are by now. */
  ghost predicate RowsAgree(t: DeviceType, r: Release) {
    && r.artifact.Some? && r.manifest.Some? && !r.status.Uploaded?
    && IsValidVersion(r.version)
    && var a, m := r.artifact.value, r.manifest.value;
       && ValidateFilename(a.filename).None?
       && a.storageKey == ObjectKey(t.code, t.platform, r.version, a.filename)
       && m.storageKey == ObjectKey(t.code, t.platform, r.version, MANIFEST_FILENAME)
       && IsComposedUrl(m.url, t.code, t.platform, r.version, a.filename)
       && m.version == r.version && m.md5 == a.md5 && m.size == a.size
       && MIN_ARTIFACT_SIZE <= a.size <= MAX_ARTIFACT_SIZE
  }

  /** The stored manifest parses to exactly the fields of its row, and its signature
      passes the verifier if the row says that it was checked. */
  ghost predicate ManifestMatches(cfg: Config, raw: bytes, row: ManifestRow) {
    && ParseManifest(cfg.decoders, raw).Success?
    && var m := ParseManifest(cfg.decoders, raw).value;
       && m.version == row.version && m.url == row.url && m.md5 == row.md5 && m.size == row.size
       && m.signature == row.signature
       && (row.signatureVerified ==>
             cfg.verify(m.version + "|" + m.url + "|" + m.md5 + "|" + Render(m.size), m.signatureBytes))
  }

  ghost predicate ObjectsHold(cfg: Config, objects: Objects, r: Release)
    requires r.artifact.Some? && r.manifest.Some?
  {
    var a, m := r.artifact.value, r.manifest.value;
    && IntactAt(cfg, objects, a.storageKey, a.size, a.md5)
    && m.storageKey in objects && ManifestMatches(cfg, objects[m.storageKey], m)
  }

  ghost predicate ReleaseSound(cfg: Config, db: Db, objects: Objects, id: int)
    requires id in db.releases
  {
    var r := db.releases[id];
    && r.id == id < db.nextId
    && r.typeId in db.types
    && RowsAgree(db.types[r.typeId], r)
    && ObjectsHold(cfg, objects, r)
  }

  ghost predicate VersionsUnique(db: Db) {
    forall i, j ::
      (&& i in db.releases && j in db.releases
       && db.releases[i].typeId == db.releases[j].typeId
       && db.releases[i].version == db.releases[j].version) ==> i == j
  }

  ghost predicate ReleasesSound(cfg: Config, db: Db, objects: Objects) {
    && TypesSound(db)
    && VersionsUnique(db)
    && forall id :: id in db.releases ==> ReleaseSound(cfg, db, objects, id)
  }

  /** A release as its readers need it: keys and URL are the ones composed from the
      current code and platform of its type, the rows agree, and the store holds an
      object of the published size and checksum and the signed manifest. */
  ghost predicate Intact(cfg: Config, db: Db, objects: Objects, r: Release) {
    && r.typeId in db.types && r.artifact.Some? && r.manifest.Some?
    && var t, a, m := db.types[r.typeId], r.artifact.value, r.manifest.value;
       && StorageKey(t.code, t.platform, r.version, a.filename) == Success(a.storageKey)
       && ManifestStorageKey(t.code, t.platform, r.version) == Success(m.storageKey)
       && IsComposedUrl(m.url, t.code, t.platform, r.version, a.filename)
       && m.version == r.version && m.md5 == a.md5 && m.size == a.size
       && IntactAt(cfg, objects, a.storageKey, m.size, m.md5)
       && m.storageKey in objects && ManifestMatches(cfg, objects[m.storageKey], m)
  }

  lemma SoundReleasesAreIntact(cfg: Config, db: Db, objects: Objects, id: int)
    requires ReleasesSound(cfg, db, objects) && id in db.releases
    ensures Intact(cfg, db, objects, db.releases[id])
  {
  }

  /* ----- ownership ----- */

  ghost predicate Owns(r: Release, key: string) {
    || (r.artifact.Some? && r.artifact.value.storageKey == key)
    || (r.manifest.Some? && r.manifest.value.storageKey == key)
  }

  /** Whatever its filename, a release's keys are `ObjectKey`s of its own triple. */
  lemma OwnedKeyShape(cfg: Config, db: Db, objects: Objects, id: int, key: string) returns (filename: string)
    requires ReleasesSound(cfg, db, objects) && id in db.releases && Owns(db.releases[id], key)
    ensures
      var r := db.releases[id];
      var t := db.types[r.typeId];
      key == ObjectKey(t.code, t.platform, r.version, filename)
      && SlashFree(t.code, t.platform, r.version, filename)
  {
    var r := db.releases[id];
    assert ReleaseSound(cfg, db, objects, id);
    var t := db.types[r.typeId];
    ValidIsSlashFree(t.code, t.platform, r.version, r.artifact.value.filename);
    filename := if r.artifact.value.storageKey == key then r.artifact.value.filename else MANIFEST_FILENAME;
  }

  /** No two releases share an object. */
  lemma KeysBelongToOneRelease(cfg: Config, db: Db, objects: Objects, i: int, j: int, key: string)
    requires ReleasesSound(cfg, db, objects)
    requires i in db.releases && j in db.releases
    requires Owns(db.releases[i], key) && Owns(db.releases[j], key)
    ensures i == j
  {
    var f := OwnedKeyShape(cfg, db, objects, i, key);
    var g := OwnedKeyShape(cfg, db, objects, j, key);
    var r, q := db.releases[i], db.releases[j];
    assert ReleaseSound(cfg, db, objects, i) && ReleaseSound(cfg, db, objects, j);
    var t, s := db.types[r.typeId], db.types[q.typeId];
    KeysAreInjective(t.code, t.platform, r.version, f, s.code, s.platform, q.version, g);
  }

  /** Every object a committed release owns is the same afterwards. */
  ghost predicate OwnedUnchanged(db: Db, before: Objects, after: Objects) {
    forall id, key :: id in db.releases && Owns(db.releases[id], key) && key in before ==>
      key in after && after[key] == before[key]
  }

  /* ----- upload ----- */

  /** What the gate guarantees about a prepared upload. */
  lemma PrepareFacts(cfg: Config, db: Db, typeId: int, version: string, u: Upload)
    requires Prepare(cfg, db, typeId, version, u).Success?
    ensures typeId in db.types
    ensures
      var p := Prepare(cfg, db, typeId, version, u).value;
      var t := db.types[typeId];
      && IsValidVersion(version) && ValidateFilename(u.filename).None?
      && ValidateDeviceTypePath(t.code, t.platform).None?
      && !VersionTaken(db, typeId, version)
      && p.artifactKey == ObjectKey(t.code, t.platform, version, u.filename)
      && p.manifestKey == ObjectKey(t.code, t.platform, version, MANIFEST_FILENAME)
      && u.manifest == Some(p.manifest.raw) && p.md5 == cfg.md5(u.data)
      && p.verified == cfg.settings.verifies
      && RowsAgree(t, ReleaseRow(db.nextId, typeId, version, u, p))
      && ManifestMatches(cfg, p.manifest.raw, ReleaseRow(db.nextId, typeId, version, u, p).manifest.value)
  {
  }

  /** The keys of a new release belong to no existing one. */
  lemma NewKeysAreFree(cfg: Config, db: Db, objects: Objects, typeId: int, version: string, u: Upload, id: int)
    requires ReleasesSound(cfg, db, objects) && id in db.releases
    requires Prepare(cfg, db, typeId, version, u).Success?
    ensures
      var p := Prepare(cfg, db, typeId, version, u).value;
      !Owns(db.releases[id], p.artifactKey) && !Owns(db.releases[id], p.manifestKey)
  {
    PrepareFacts(cfg, db, typeId, version, u);
    var p := Prepare(cfg, db, typeId, version, u).value;
    var t := db.types[typeId];
    ValidIsSlashFree(t.code, t.platform, version, u.filename);
    forall key, filename |
      key == ObjectKey(t.code, t.platform, version, filename)
      && SlashFree(t.code, t.platform, version, filename)
      ensures !Owns(db.releases[id], key)
    {
      if Owns(db.releases[id], key) {
        var g := OwnedKeyShape(cfg, db, objects, id, key);
        var r := db.releases[id];
        assert ReleaseSound(cfg, db, objects, id);
        var s := db.types[r.typeId];
        KeysAreInjective(t.code, t.platform, version, filename, s.code, s.platform, r.version, g);
      }
    }
  }

  lemma DiscardedKeys(objects: Objects, first: string, second: string, f: Faults)
    ensures Discarded(objects, [first], f) == objects - (if f.removesFirst then {first} else {})
    ensures Discarded(objects, [first, second], f)
            == objects - (if f.removesFirst then {first} else {}) - (if f.removesSecond then {second} else {})
  {
  }

  /** Writing and discarding touch the two new keys only. */
  lemma OnlyNewKeysTouched(
    cfg: Config, db: Db, objects: Objects, typeId: int, version: string, u: Upload, p: Prepared, f: Faults, key: string)
    requires key != p.artifactKey && key != p.manifestKey
    ensures
      var after := StoreRelease(cfg, db, objects, typeId, version, u, p, f).objects;
      (key in after <==> key in objects) && (key in objects ==> after[key] == objects[key])
  {
    var t := TransferObjects(cfg, objects, p, u.data, f);
    DiscardedKeys(t.objects, p.artifactKey, p.manifestKey, f);
  }

  /** An upload, whether it succeeds or fails at any put, read-back or commit, never
      removes or overwrites an object of a committed release. */
  lemma UploadSparesOthers(
    cfg: Config, db: Db, objects: Objects, typeId: int, version: string, u: Upload, f: Faults)
    requires ReleasesSound(cfg, db, objects)
    ensures OwnedUnchanged(db, objects, CreateRelease(cfg, db, objects, typeId, version, u, f).objects)
    ensures CreateRelease(cfg, db, objects, typeId, version, u, f).error.Some? ==>
              CreateRelease(cfg, db, objects, typeId, version, u, f).db == db
  {
    var prepared := Prepare(cfg, db, typeId, version, u);
    if prepared.Success? {
      var p := prepared.value;
      var after := CreateRelease(cfg, db, objects, typeId, version, u, f).objects;
      forall id, key | id in db.releases && Owns(db.releases[id], key) && key in objects
        ensures key in after && after[key] == objects[key]
      {
        NewKeysAreFree(cfg, db, objects, typeId, version, u, id);
        OnlyNewKeysTouched(cfg, db, objects, typeId, version, u, p, f, key);
      }
    }
  }

  /** Objects that stay the same keep a release sound. */
  lemma SoundCarriesOver(cfg: Config, db: Db, objects: Objects, after: Objects, next: Db, id: int)
    requires ReleasesSound(cfg, db, objects) && OwnedUnchanged(db, objects, after)
    requires id in db.releases && id in next.releases && next.releases[id] == db.releases[id]
    requires next.types == db.types && db.nextId <= next.nextId
    ensures ReleaseSound(cfg, next, after, id)
  {
  }

  /** A committed upload holds what was uploaded: the artifact at its key, and the
      manifest byte for byte at its own, also when both keys coincide. */
  lemma UploadHoldsBytes(
    cfg: Config, db: Db, objects: Objects, typeId: int, version: string, u: Upload, f: Faults)
    requires CreateRelease(cfg, db, objects, typeId, version, u, f).error.None?
    ensures
      var o := CreateRelease(cfg, db, objects, typeId, version, u, f);
      && db.nextId in o.db.releases
      && var r := o.db.releases[db.nextId];
         && r.artifact.Some? && r.manifest.Some?
         && IntactAt(cfg, o.objects, r.artifact.value.storageKey, |u.data|, cfg.md5(u.data))
         && r.manifest.value.storageKey in o.objects
         && u.manifest == Some(o.objects[r.manifest.value.storageKey])
         && (r.artifact.value.filename != MANIFEST_FILENAME ==>
               o.objects[r.artifact.value.storageKey] == u.data)
         && RowsAgree(db.types[typeId], r)
         && ObjectsHold(cfg, o.objects, r)
  {
    PrepareFacts(cfg, db, typeId, version, u);
    var p := Prepare(cfg, db, typeId, version, u).value;
    var t := db.types[typeId];
    if u.filename != MANIFEST_FILENAME {
      ValidIsSlashFree(t.code, t.platform, version, u.filename);
      if p.artifactKey == p.manifestKey {
        KeysAreInjective(t.code, t.platform, version, u.filename, t.code, t.platform, version, MANIFEST_FILENAME);
      }
    }
  }

  lemma UploadKeepsSound(
    cfg: Config, db: Db, objects: Objects, typeId: int, version: string, u: Upload, f: Faults)
    requires ReleasesSound(cfg, db, objects)
    ensures
      var o := CreateRelease(cfg, db, objects, typeId, version, u, f);
      ReleasesSound(cfg, o.db, o.objects)
  {
    var o := CreateRelease(cfg, db, objects, typeId, version, u, f);
    UploadSparesOthers(cfg, db, objects, typeId, version, u, f);
    UploadAddsOneRow(cfg, db, objects, typeId, version, u, f) by {
      assert forall id :: id in db.releases ==> ReleaseSound(cfg, db, objects, id);
    }
    if o.error.None? {
      UploadHoldsBytes(cfg, db, objects, typeId, version, u, f);
      NewRowKeepsSound(cfg, db, objects, o.objects, o.db);
    } else {
      SameRowsKeepSound(cfg, db, objects, o.objects);
    }
  }

  lemma SameRowsKeepSound(cfg: Config, db: Db, objects: Objects, after: Objects)
    requires ReleasesSound(cfg, db, objects) && OwnedUnchanged(db, objects, after)
    ensures ReleasesSound(cfg, db, after)
  {
    forall id | id in db.releases
      ensures ReleaseSound(cfg, db, after, id)
    {
      SoundCarriesOver(cfg, db, objects, after, db, id);
    }
  }

  lemma NewRowKeepsSound(cfg: Config, db: Db, objects: Objects, after: Objects, next: Db)
    requires ReleasesSound(cfg, db, objects) && OwnedUnchanged(db, objects, after)
    requires next == db.(releases := next.releases, nextId := db.nextId + 1)
    requires db.nextId in next.releases && next.releases == db.releases[db.nextId := next.releases[db.nextId]]
    requires
      var r := next.releases[db.nextId];
      && r.id == db.nextId && r.typeId in db.types && !VersionTaken(db, r.typeId, r.version)
      && RowsAgree(db.types[r.typeId], r) && ObjectsHold(cfg, after, r)
    ensures ReleasesSound(cfg, next, after)
  {
    assert ReleaseSound(cfg, next, after, db.nextId);
    forall id | id in db.releases
      ensures id != db.nextId && ReleaseSound(cfg, next, after, id)
    {
      assert ReleaseSound(cfg, db, objects, id);
      SoundCarriesOver(cfg, db, objects, after, next, id);
    }
  }

  /** A committed upload adds one row, at a fresh id and for a version its type did
      not have; a failed one changes no table. */
  lemma UploadAddsOneRow(
    cfg: Config, db: Db, objects: Objects, typeId: int, version: string, u: Upload, f: Faults)
    requires forall id :: id in db.releases ==> id < db.nextId
    ensures
      var o := CreateRelease(cfg, db, objects, typeId, version, u, f);
      if o.error.Some? then o.db == db
      else
        && typeId in db.types && !VersionTaken(db, typeId, version) && db.nextId !in db.releases
        && db.nextId in o.db.releases
        && o.db.releases == db.releases[db.nextId := o.db.releases[db.nextId]]
        && o.db.releases[db.nextId].id == db.nextId
        && o.db.releases[db.nextId].typeId == typeId && o.db.releases[db.nextId].version == version
        && o.db == db.(releases := o.db.releases, nextId := db.nextId + 1)
  {
  }

  /* ----- what a failed upload leaves behind ----- */

  /** Which objects a failed upload does not leave behind: one that was not there and
      was not written, or one whose key was recorded and could be removed. The
      manifest's key is recorded only after its put, so a manifest that lands although
      the put raised is removed only where it lies at the artifact's own key. */
  predicate CleansUp(p: Prepared, objects: Objects, f: Faults) {
    var bothPut := f.artifactPut.Completes? && f.manifestPut.Completes?;
    var artifactRemoved := f.removesFirst || (f.artifactPut.Refused? && p.artifactKey !in objects);
    if p.artifactKey == p.manifestKey then artifactRemoved || (bothPut && f.removesSecond)
    else
      && artifactRemoved
      && if bothPut then f.removesSecond
         else p.manifestKey !in objects && !(f.artifactPut.Completes? && f.manifestPut.LandsButRaises?)
  }

  /** The object writes, followed by the clean-up of a failure. */
  function AfterFailure(cfg: Config, objects: Objects, p: Prepared, data: bytes, f: Faults): Objects {
    var t := TransferObjects(cfg, objects, p, data, f);
    Discarded(t.objects, t.written, f)
  }

  lemma SharedKeyIsLeftIff(cfg: Config, objects: Objects, p: Prepared, data: bytes, f: Faults)
    requires p.artifactKey == p.manifestKey
    ensures p.artifactKey !in AfterFailure(cfg, objects, p, data, f) <==> CleansUp(p, objects, f)
  {
    DiscardedKeys(TransferObjects(cfg, objects, p, data, f).objects, p.artifactKey, p.manifestKey, f);
  }

  lemma ArtifactIsLeftIff(cfg: Config, objects: Objects, p: Prepared, data: bytes, f: Faults)
    requires p.artifactKey != p.manifestKey
    ensures p.artifactKey !in AfterFailure(cfg, objects, p, data, f)
            <==> f.removesFirst || (f.artifactPut.Refused? && p.artifactKey !in objects)
  {
    DiscardedKeys(TransferObjects(cfg, objects, p, data, f).objects, p.artifactKey, p.manifestKey, f);
  }

  lemma ManifestIsLeftIff(cfg: Config, objects: Objects, p: Prepared, data: bytes, f: Faults)
    requires p.artifactKey != p.manifestKey
    ensures p.manifestKey !in AfterFailure(cfg, objects, p, data, f)
            <==> if f.artifactPut.Completes? && f.manifestPut.Completes? then f.removesSecond
                 else p.manifestKey !in objects && !(f.artifactPut.Completes? && f.manifestPut.LandsButRaises?)
  {
    DiscardedKeys(TransferObjects(cfg, objects, p, data, f).objects, p.artifactKey, p.manifestKey, f);
  }

  lemma OthersStay(
    cfg: Config, db: Db, objects: Objects, typeId: int, version: string, u: Upload, p: Prepared, f: Faults)
    ensures
      var after := StoreRelease(cfg, db, objects, typeId, version, u, p, f).objects;
      after - {p.artifactKey, p.manifestKey} == objects - {p.artifactKey, p.manifestKey}
  {
    var after := StoreRelease(cfg, db, objects, typeId, version, u, p, f).objects;
    forall key | key != p.artifactKey && key != p.manifestKey
      ensures key in after <==> key in objects
      ensures key in objects ==> after[key] == objects[key]
    {
      OnlyNewKeysTouched(cfg, db, objects, typeId, version, u, p, f, key);
    }
  }

  /** Every upload that fails after its checks, for every filename and also onto keys
      an earlier failure left in use: neither object is left exactly when `CleansUp`,
      and where both keys were unused the store is then exactly as it was. */
  lemma FailedUploadLeavesNothingIff(
    cfg: Config, db: Db, objects: Objects, typeId: int, version: string, u: Upload, f: Faults)
    requires Prepare(cfg, db, typeId, version, u).Success?
    requires CreateRelease(cfg, db, objects, typeId, version, u, f).error.Some?
    ensures
      var p := Prepare(cfg, db, typeId, version, u).value;
      var after := CreateRelease(cfg, db, objects, typeId, version, u, f).objects;
      && (p.artifactKey !in after && p.manifestKey !in after <==> CleansUp(p, objects, f))
      && (p.artifactKey !in objects && p.manifestKey !in objects ==> (after == objects <==> CleansUp(p, objects, f)))
  {
    var p := Prepare(cfg, db, typeId, version, u).value;
    var after := CreateRelease(cfg, db, objects, typeId, version, u, f).objects;
    assert after == AfterFailure(cfg, objects, p, u.data, f);
    if p.artifactKey == p.manifestKey {
      SharedKeyIsLeftIff(cfg, objects, p, u.data, f);
    } else {
      ArtifactIsLeftIff(cfg, objects, p, u.data, f);
      ManifestIsLeftIff(cfg, objects, p, u.data, f);
    }
    OthersStay(cfg, db, objects, typeId, version, u, p, f);
    if p.artifactKey !in objects && p.manifestKey !in objects {
      SameOutside(objects, after, {p.artifactKey, p.manifestKey});
    }
  }

  lemma SameOutside(objects: Objects, after: Objects, keys: set<string>)
    requires after - keys == objects - keys && objects.Keys !! keys
    ensures after.Keys !! keys <==> after == objects
  {
    assert objects - keys == objects;
    if after.Keys !! keys {
      assert after - keys == after;
    }
  }

  /** The manifest put that raises although the object landed, with every removal
      succeeding and both keys unused: the object stays, unless the artifact itself is
      called manifest.json, when removing the artifact's key removes it. */
  lemma LandedManifestIsLeftUnlessShared(
    cfg: Config, db: Db, objects: Objects, typeId: int, version: string, u: Upload, p: Prepared)
    requires p.artifactKey !in objects && p.manifestKey !in objects
    ensures
      var f := Faults(Completes, LandsButRaises, true, true, true, true);
      var o := StoreRelease(cfg, db, objects, typeId, version, u, p, f);
      && o.error == Some(StorageUnavailable)
      && (p.artifactKey != p.manifestKey ==> o.objects == objects[p.manifestKey := p.manifest.raw])
      && (p.artifactKey == p.manifestKey ==> o.objects == objects)
  {
    var f := Faults(Completes, LandsButRaises, true, true, true, true);
    DiscardedKeys(TransferObjects(cfg, objects, p, u.data, f).objects, p.artifactKey, p.manifestKey, f);
  }

  /* ----- lifecycle and device types ----- */

  /** A status change other than back to `Uploaded` keeps everything. */
  lemma StatusKeepsSound(cfg: Config, db: Db, objects: Objects, id: int, status: ReleaseStatus)
    requires ReleasesSound(cfg, db, objects) && id in db.releases && !status.Uploaded?
    ensures ReleasesSound(cfg, WithStatus(db, id, status), objects)
  {
  }

  /** Renaming a type is locked while it has releases, so keys never go stale. */
  lemma UpdateTypeKeepsSound(
    cfg: Config, db: Db, objects: Objects, id: int, code: Option<string>, platform: Option<string>)
    requires ReleasesSound(cfg, db, objects) && UpdateType(db, id, code, platform).Success?
    ensures ReleasesSound(cfg, UpdateType(db, id, code, platform).value, objects)
  {
    var next := UpdateType(db, id, code, platform).value;
    forall j | j in next.releases
      ensures ReleaseSound(cfg, next, objects, j)
    {
      assert ReleaseSound(cfg, db, objects, j);
      if db.releases[j].typeId == id && next.types[id] != db.types[id] {
        assert TypeHasDependencies(db, id);
      }
    }
    forall i, j | i in next.types && j in next.types && next.types[i].code == next.types[j].code
      ensures i == j
    {
      if i != j && (i == id || j == id) && next.types[id].code != db.types[id].code {
        assert CodeTaken(db, next.types[id].code, Some(id));
      }
    }
  }

  lemma CreateTypeKeepsSound(cfg: Config, db: Db, objects: Objects, code: string, platform: string)
    requires ReleasesSound(cfg, db, objects) && CreateType(db, code, platform).Success?
    ensures ReleasesSound(cfg, CreateType(db, code, platform).value, objects)
  {
    var next := CreateType(db, code, platform).value;
    forall j | j in next.releases
      ensures ReleaseSound(cfg, next, objects, j)
    {
      assert ReleaseSound(cfg, db, objects, j);
    }
    assert forall i :: i in db.types ==> i != db.nextId && db.types[i].code != code;
  }

  lemma DeleteTypeKeepsSound(cfg: Config, db: Db, objects: Objects, id: int)
    requires ReleasesSound(cfg, db, objects) && DeleteType(db, id).Success?
    ensures ReleasesSound(cfg, DeleteType(db, id).value, objects)
  {
    var next := DeleteType(db, id).value;
    forall j | j in next.releases
      ensures ReleaseSound(cfg, next, objects, j)
    {
      assert ReleaseSound(cfg, db, objects, j);
    }
  }

  lemma SetTypeActiveKeepsSound(cfg: Config, db: Db, objects: Objects, id: int, isActive: bool)
    requires ReleasesSound(cfg, db, objects) && SetTypeActive(db, id, isActive).Success?
    ensures ReleasesSound(cfg, SetTypeActive(db, id, isActive).value, objects)
  {
    var next := SetTypeActive(db, id, isActive).value;
    forall j | j in next.releases
      ensures ReleaseSound(cfg, next, objects, j)
    {
      assert ReleaseSound(cfg, db, objects, j);
    }
  }

  /** Publishing a sound release succeeds exactly for a publishable status, a store
      that can be read and, where signatures are checked by now, a signature that was
      checked at upload: the integrity checks cannot fail. */
  lemma PublishSucceedsIff(cfg: Config, db: Db, objects: Objects, id: int, reachable: bool)
    requires ReleasesSound(cfg, db, objects) && id in db.releases
    ensures db.releases[id].manifest.Some?
    ensures PublishRelease(cfg, db, objects, id, reachable).Success?
            <==> && (db.releases[id].status.Validated? || db.releases[id].status.Draft?) && reachable
                 && (cfg.settings.verifies ==> db.releases[id].manifest.value.signatureVerified)
  {
    assert ReleaseSound(cfg, db, objects, id);
  }

  /** The invariant does not depend on the settings in force. */
  lemma SettingsDoNotMatter(cfg: Config, settings: Settings, db: Db, objects: Objects)
    ensures ReleasesSound(cfg, db, objects) <==> ReleasesSound(Under(cfg, settings), db, objects)
  {
    var other := Under(cfg, settings);
    forall id | id in db.releases
      ensures ReleaseSound(cfg, db, objects, id) <==> ReleaseSound(other, db, objects, id)
    {
    }
  }
}
