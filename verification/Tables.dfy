/** The rows the services read and write (app/db/models.py), and the database
    session they share. Columns that no rule reads (names, notes, hashes kept for
    display, audit rows) are not modelled; instants are unbounded integers. */
module Tables {
  import opened Wrappers

  /* ----- coded errors ----- */

  datatype Code =
    | PolicyScopeTargetForbidden | PolicyScopeTargetRequired | PolicyVersionForbidden
    | PolicyTargetRequired | PolicyRangeInvalid | PolicyWindowInvalid | PolicyConflict
    | PolicyNotFound | PolicyArchived | PolicyNotArchived | PolicyImmutable
    | InvalidVersion | InvalidCode | InvalidPlatform | InvalidFilename | InvalidMac
    | DeviceTypePathBudgetExceeded | ManifestUrlTooLong
    | DeviceTypeNotFound | DeviceTypeInactive | DeviceTypeExists
    | DeviceTypeIdentityLocked | DeviceTypeHasDependencies
    | DeviceNotFound | SerialExists | MacExists | InvalidDeviceTransition
    | DeviceIdentityLocked | DeviceHasDependencies | TokenNotFound | TokenHashExists
    | ManifestInvalid | MissingSignature | InvalidSignature | ManifestRequired
    | ManifestVersionMismatch | ManifestMd5Mismatch | ManifestSizeMismatch | ManifestUrlMismatch
    | VersionExists | ArtifactEmpty | ArtifactTooLarge | ArtifactMissing | ArtifactMismatch
    | StorageUnavailable | StorageVerificationFailed | CommitFailed
    | ReleaseNotFound | InvalidReleaseTransition | SignatureUnverified

  /* ----- device types and devices ----- */

  datatype DeviceType = DeviceType(code: string, platform: string, isActive: bool)

  datatype DeviceStatus = Provisioned | Active | Disabled | Retired

  datatype KnownFirmwareSource = AdminAsserted | DeviceReported

  datatype Device = Device(
    typeId: int,
    serial: int,
    mac: Option<string>,
    networkMac: Option<string>,
    status: DeviceStatus,
    otaEnabled: bool,
    currentVersion: Option<string>,
    versionSource: Option<KnownFirmwareSource>,
    lastSeenAt: Option<int>,
    lastManifestCheckAt: Option<int>)

  datatype Token = Token(
    deviceId: int, hash: string, isActive: bool, revokedAt: Option<int>, expiresAt: Option<int>)

  /* ----- policies ----- */

  datatype PolicyScope = GlobalScope | DeviceTypeScope | DeviceScope

  datatype PolicyType = Pin | Range | Disable

  datatype Window = Window(startsAt: Option<int>, endsAt: Option<int>)

  /** The part of a policy that `validate_policy_definition` judges. */
  datatype Definition = Definition(
    scope: PolicyScope,
    policyType: PolicyType,
    deviceTypeId: Option<int>,
    deviceId: Option<int>,
    targetVersion: Option<string>,
    minVersion: Option<string>,
    maxVersion: Option<string>,
    window: Window)

  datatype Policy = Policy(
    id: int,
    def: Definition,
    priority: int,
    isActive: bool,
    archivedAt: Option<int>)

  /* ----- releases ----- */

  type byte = b: int | 0 <= b < 256

  type bytes = seq<byte>

  datatype ReleaseStatus = Uploaded | Validated | Draft | Published | Deprecated | Archived

  datatype Artifact = Artifact(storageKey: string, filename: string, size: nat, md5: string)

  datatype ManifestRow = ManifestRow(
    version: string,
    url: string,
    md5: string,
    size: nat,
    signature: string,
    storageKey: string,
    signatureVerified: bool)

  datatype Release = Release(
    id: int,
    typeId: int,
    version: string,
    status: ReleaseStatus,
    artifact: Option<Artifact>,
    manifest: Option<ManifestRow>)

  /* ----- server-observed events ----- */

  datatype AttemptStatus = UpdateOffered | DownloadServed

  datatype Attempt = Attempt(
    deviceId: int,
    releaseId: int,
    fromVersion: Option<string>,
    toVersion: string,
    status: AttemptStatus,
    bytesServed: Option<nat>)

  /** All tables. `communications` keeps only what rules read of the communication
      rows: the ids of the devices some row refers to. One counter hands out the
      ids of every table. */
  datatype Db = Db(
    types: map<int, DeviceType>,
    devices: map<int, Device>,
    tokens: map<int, Token>,
    policies: map<int, Policy>,
    releases: map<int, Release>,
    attempts: seq<Attempt>,
    communications: set<int>,
    nextId: int)

  const EMPTY_DB := Db(map[], map[], map[], map[], map[], [], {}, 1)

  /** How a service call ends: its result is committed, or it raised a coded error
      and was rolled back. */
  ghost predicate Settles(before: Db, after: Db, spec: Result<Db, Code>, error: Option<Code>) {
    match spec
    case Success(next) => error.None? && after == next
    case Failure(code) => error == Some(code) && after == before
  }

  /** A database session: `db` is what the open transaction sees, `committed` what
      a rollback returns to. */
  class Session {
    var db: Db
    var committed: Db

    constructor ()
      ensures db == committed == EMPTY_DB
    {
      db, committed := EMPTY_DB, EMPTY_DB;
    }

    /** No transaction is open: each request starts and ends like this. */
    ghost predicate Clean()
      reads this
    {
      db == committed
    }

    method Commit()
      modifies this
      ensures db == committed == old(db)
    {
      committed := db;
    }

    method Rollback()
      modifies this
      ensures db == committed == old(committed)
    {
      db := committed;
    }
  }
}
