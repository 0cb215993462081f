/** Device types and devices (app/services/devices.py). */
module Devices {
  import opened Wrappers
  import opened Text
  import opened Tables
  import opened Version
  import opened UpdatePath

  /* ----- MAC addresses ----- */

  function Without(s: string, c: char): string {
    if s == "" then ""
    else if s[0] == c then Without(s[1..], c)
    else [s[0]] + Without(s[1..], c)
  }

  function UpperChar(c: char): char {
    if 'a' <= c <= 'z' then (c as int - 32) as char else c
  }

  function Upper(s: string): (t: string)
    ensures |t| == |s| && forall i :: 0 <= i < |s| ==> t[i] == UpperChar(s[i])
  {
    if s == "" then "" else [UpperChar(s[0])] + Upper(s[1..])
  }

  function Cleaned(mac: string): string {
    Upper(Strip(Without(Without(mac, '-'), ':')))
  }

  function Paired(s: string): string {
    if |s| <= 2 then s else s[..2] + ":" + Paired(s[2..])
  }

  /** Upper-case pairs joined by colons; the twelve characters are not required to
      be hexadecimal. */
  function NormalizeMac(mac: string): Result<string, Code> {
    if |Cleaned(mac)| != 12 then Failure(InvalidMac) else Success(Paired(Cleaned(mac)))
  }

  lemma {:induction false} WithoutIsFree(s: string, c: char)
    ensures Free(Without(s, c), c)
    ensures forall d :: Free(s, d) ==> Free(Without(s, c), d)
    ensures Free(s, c) ==> Without(s, c) == s
  {
    if s != "" {
      WithoutIsFree(s[1..], c);
      assert s == [s[0]] + s[1..];
      forall d | Free(s, d)
        ensures Free(s[1..], d) && s[0] != d
      {
        assert s[0] in s;
      }
    }
  }

  lemma {:induction false} WithoutOfConcat(s: string, t: string, c: char)
    ensures Without(s + t, c) == Without(s, c) + Without(t, c)
  {
    if s == "" {
      assert s + t == t;
    } else {
      assert (s + t)[1..] == s[1..] + t;
      WithoutOfConcat(s[1..], t, c);
    }
  }

  lemma {:induction false} PairedWithoutColons(s: string)
    requires Free(s, ':')
    ensures Without(Paired(s), ':') == s
    ensures Free(s, '-') ==> Free(Paired(s), '-')
  {
    if |s| <= 2 {
      WithoutIsFree(s, ':');
    } else {
      PairedWithoutColons(s[2..]);
      ColonBetween(s[..2], Paired(s[2..]));
      assert s == s[..2] + s[2..];
    }
  }

  lemma ColonDropped(rest: string)
    ensures Without(":" + rest, ':') == Without(rest, ':')
  {
    assert (":" + rest)[1..] == rest;
  }

  lemma FreeIsKept(s: string, c: char)
    requires Free(s, c)
    ensures Without(s, c) == s
  {
    WithoutIsFree(s, c);
  }

  lemma ColonBetween(pair: string, rest: string)
    requires Free(pair, ':')
    ensures Without(pair + ":" + rest, ':') == pair + Without(rest, ':')
  {
    var tail := ":" + rest;
    FreeIsKept(pair, ':');
    ColonDropped(rest);
    WithoutOfConcat(pair, tail, ':');
    assert pair + ":" + rest == pair + tail;
  }

  lemma UpperIsFree(s: string, c: char)
    requires Free(s, c) && UpperChar(c) == c && !('A' <= c <= 'Z')
    ensures Free(Upper(s), c)
  {
    forall i | 0 <= i < |s|
      ensures Upper(s)[i] != c
    {
      assert s[i] in s;
    }
  }

  lemma UpperIsUpper(s: string)
    ensures Upper(Upper(s)) == Upper(s)
  {
  }

  lemma CleanedIsClean(mac: string)
    requires Cleaned(mac) != ""
    ensures
      var s := Cleaned(mac);
      Free(s, ':') && Free(s, '-') && !IsSpace(s[0]) && !IsSpace(s[|s| - 1]) && Upper(s) == s
  {
    var bare := Without(Without(mac, '-'), ':');
    WithoutIsFree(mac, '-');
    WithoutIsFree(Without(mac, '-'), ':');
    StripKeepsFree(bare, ':');
    StripKeepsFree(bare, '-');
    StripTrims(bare);
    UpperIsFree(Strip(bare), ':');
    UpperIsFree(Strip(bare), '-');
    UpperIsUpper(Strip(bare));
  }

  lemma CleanedOfPaired(s: string)
    requires s != "" && Free(s, ':') && Free(s, '-')
    requires !IsSpace(s[0]) && !IsSpace(s[|s| - 1]) && Upper(s) == s
    ensures Cleaned(Paired(s)) == s
  {
    PairedWithoutColons(s);
    FreeIsKept(Paired(s), '-');
    assert Strip(s) == s;
  }

  lemma {:induction false} WithoutIsShorter(s: string, c: char)
    ensures |Without(s, c)| <= |s|
  {
    if s != "" {
      WithoutIsShorter(s[1..], c);
    }
  }

  lemma {:induction false} StripIsShorter(s: string)
    ensures |Strip(s)| <= |s|
    decreases |s|
  {
    if s != "" && IsSpace(s[0]) {
      StripIsShorter(s[1..]);
    } else if s != "" && IsSpace(s[|s| - 1]) {
      StripIsShorter(s[..|s| - 1]);
    }
  }

  lemma CleanedIsShorter(mac: string)
    ensures |Cleaned(mac)| <= |mac|
  {
    WithoutIsShorter(mac, '-');
    WithoutIsShorter(Without(mac, '-'), ':');
    StripIsShorter(Without(Without(mac, '-'), ':'));
  }

  /** A normal form is its own normal form, so the uniqueness test on stored
      addresses compares like with like. */
  lemma NormalizeIsIdempotent(mac: string)
    requires NormalizeMac(mac).Success?
    ensures NormalizeMac(NormalizeMac(mac).value) == NormalizeMac(mac)
  {
    CleanedIsClean(mac);
    CleanedOfPaired(Cleaned(mac));
  }

  /** The address stored for a submitted one: absent or blank means none. */
  function StoredMac(raw: Option<string>): Result<Option<string>, Code> {
    if raw.None? || Strip(raw.value) == "" then Success(None)
    else
      var mac :- NormalizeMac(Strip(raw.value));
      Success(Some(mac))
  }

  /* ----- device types ----- */

  predicate CodeTaken(db: Db, code: string, exclude: Option<int>) {
    exists id :: id in db.types && exclude != Some(id) && db.types[id].code == code
  }

  predicate TypeHasDependencies(db: Db, typeId: int) {
    || (exists id :: id in db.devices && db.devices[id].typeId == typeId)
    || (exists id :: id in db.releases && db.releases[id].typeId == typeId)
    || (exists id :: id in db.policies && db.policies[id].def.deviceTypeId == Some(typeId))
  }

  function CreateType(db: Db, code: string, platform: string): Result<Db, Code> {
    if ValidateDeviceTypePath(code, platform).Some? then
      Failure(ValidateDeviceTypePath(code, platform).value)
    else if CodeTaken(db, code, None) then Failure(DeviceTypeExists)
    else
      Success(db.(types := db.types[db.nextId := DeviceType(code, platform, true)],
                  nextId := db.nextId + 1))
  }

  /** `None` leaves a field alone. */
  function UpdateType(db: Db, id: int, code: Option<string>, platform: Option<string>): Result<Db, Code> {
    if id !in db.types then Failure(DeviceTypeNotFound)
    else
      var t := db.types[id];
      var newCode := if code.Some? then code.value else t.code;
      var newPlatform := if platform.Some? then platform.value else t.platform;
      if (newCode != t.code || newPlatform != t.platform) && TypeHasDependencies(db, id)
      then Failure(DeviceTypeIdentityLocked)
      else if ValidateDeviceTypePath(newCode, newPlatform).Some? then
        Failure(ValidateDeviceTypePath(newCode, newPlatform).value)
      else if newCode != t.code && CodeTaken(db, newCode, Some(id)) then Failure(DeviceTypeExists)
      else Success(db.(types := db.types[id := t.(code := newCode, platform := newPlatform)]))
  }

  function SetTypeActive(db: Db, id: int, isActive: bool): Result<Db, Code> {
    if id !in db.types then Failure(DeviceTypeNotFound)
    else Success(db.(types := db.types[id := db.types[id].(isActive := isActive)]))
  }

  function DeleteType(db: Db, id: int): Result<Db, Code> {
    if id !in db.types then Failure(DeviceTypeNotFound)
    else if TypeHasDependencies(db, id) then Failure(DeviceTypeHasDependencies)
    else Success(db.(types := db.types - {id}))
  }

  /* ----- devices ----- */

  predicate SerialTaken(db: Db, serial: int, exclude: Option<int>) {
    exists id :: id in db.devices && exclude != Some(id) && db.devices[id].serial == serial
  }

  predicate MacTaken(db: Db, mac: Option<string>, exclude: Option<int>) {
    mac.Some? && exists id :: id in db.devices && exclude != Some(id) && db.devices[id].mac == mac
  }

  function Register(
    db: Db, typeId: int, serial: int, rawMac: Option<string>, rawNetworkMac: Option<string>, otaEnabled: bool)
    : Result<Db, Code>
  {
    if typeId !in db.types then Failure(DeviceTypeNotFound)
    else if !db.types[typeId].isActive then Failure(DeviceTypeInactive)
    else
      var mac :- StoredMac(rawMac);
      if SerialTaken(db, serial, None) then Failure(SerialExists)
      else if MacTaken(db, mac, None) then Failure(MacExists)
      else
        var networkMac :- StoredMac(rawNetworkMac);
        var row := Device(typeId, serial, mac, networkMac, Provisioned, otaEnabled, None, None, None, None);
        Success(db.(devices := db.devices[db.nextId := row], nextId := db.nextId + 1))
  }

  predicate AllowedTransition(from: DeviceStatus, to: DeviceStatus) {
    match from
    case Provisioned => to.Active? || to.Disabled? || to.Retired?
    case Active => to.Disabled? || to.Retired?
    case Disabled => to.Active? || to.Retired?
    case Retired => to.Disabled?
  }

  function SetStatus(db: Db, id: int, status: DeviceStatus): Result<Db, Code> {
    if id !in db.devices then Failure(DeviceNotFound)
    else
      var d := db.devices[id];
      if status != d.status && !AllowedTransition(d.status, status) then Failure(InvalidDeviceTransition)
      else
        var row := d.(status := status, otaEnabled := if status.Retired? then false else d.otaEnabled);
        Success(db.(devices := db.devices[id := row]))
  }

  predicate HasToken(db: Db, deviceId: int) {
    exists id :: id in db.tokens && db.tokens[id].deviceId == deviceId
  }

  /** Retained history that outlives a purge, and so forbids it. */
  predicate HasPurgeBlockers(db: Db, deviceId: int) {
    || deviceId in db.communications
    || (exists a :: a in db.attempts && a.deviceId == deviceId)
    || (exists id :: id in db.policies && db.policies[id].def.deviceId == Some(deviceId))
  }

  predicate HasHistory(db: Db, deviceId: int) {
    HasPurgeBlockers(db, deviceId) || HasToken(db, deviceId)
  }

  predicate IdentityLocked(db: Db, id: int)
    requires id in db.devices
  {
    !db.devices[id].status.Provisioned? || HasHistory(db, id)
  }

  datatype IdentityChanges = IdentityChanges(
    typeId: Option<int>, serial: Option<int>, rawMac: Option<Option<string>>)

  function UpdateIdentity(db: Db, id: int, c: IdentityChanges): Result<Db, Code> {
    if id !in db.devices then Failure(DeviceNotFound)
    else if IdentityLocked(db, id) then Failure(DeviceIdentityLocked)
    else if c.typeId.Some? && c.typeId.value !in db.types then Failure(DeviceTypeNotFound)
    else if c.typeId.Some? && !db.types[c.typeId.value].isActive then Failure(DeviceTypeInactive)
    else if c.serial.Some? && SerialTaken(db, c.serial.value, Some(id)) then Failure(SerialExists)
    else
      var d := db.devices[id];
      var mac :- if c.rawMac.Some? then StoredMac(c.rawMac.value) else Success(d.mac);
      if c.rawMac.Some? && MacTaken(db, mac, Some(id)) then Failure(MacExists)
      else
        var row := d.(typeId := if c.typeId.Some? then c.typeId.value else d.typeId,
                      serial := if c.serial.Some? then c.serial.value else d.serial,
                      mac := mac);
        Success(db.(devices := db.devices[id := row]))
  }

  /** The device row goes, and with it the tokens it owns. */
  function Purge(db: Db, id: int): Result<Db, Code> {
    if id !in db.devices then Failure(DeviceNotFound)
    else if !db.devices[id].status.Provisioned? || HasPurgeBlockers(db, id) then Failure(DeviceHasDependencies)
    else
      Success(db.(devices := db.devices - {id},
                  tokens := map t | t in db.tokens && db.tokens[t].deviceId != id :: db.tokens[t]))
  }

  function SetOtaEnabled(db: Db, id: int, otaEnabled: bool): Result<Db, Code> {
    if id !in db.devices then Failure(DeviceNotFound)
    else Success(db.(devices := db.devices[id := db.devices[id].(otaEnabled := otaEnabled)]))
  }

  function SetKnownVersion(db: Db, id: int, version: Option<string>): Result<Db, Code> {
    if id !in db.devices then Failure(DeviceNotFound)
    else if version.Some? && ParseVersion(version.value).None? then Failure(InvalidVersion)
    else
      var source := if version.None? then None else Some(AdminAsserted);
      Success(db.(devices := db.devices[id := db.devices[id].(currentVersion := version, versionSource := source)]))
  }

  /* One query per referring table. */

  function TokenOwners(db: Db, among: set<int>): (owners: set<int>)
    ensures forall id :: id in owners <==> id in among && HasToken(db, id)
  {
    set t | t in db.tokens && db.tokens[t].deviceId in among :: db.tokens[t].deviceId
  }

  function AttemptOwners(db: Db, among: set<int>): (owners: set<int>)
    ensures forall id :: id in owners <==> id in among && exists a :: a in db.attempts && a.deviceId == id
  {
    set a | a in db.attempts && a.deviceId in among :: a.deviceId
  }

  function PolicyTargets(db: Db, among: set<int>): (targets: set<int>)
    ensures forall id :: id in targets
              <==> id in among && exists p :: p in db.policies && db.policies[p].def.deviceId == Some(id)
  {
    set p | && p in db.policies && db.policies[p].def.deviceId.Some?
            && db.policies[p].def.deviceId.value in among
          :: db.policies[p].def.deviceId.value
  }

  /** `can_update_identity` and `can_purge` for each device. */
  function Reported(ids: set<int>, provisioned: set<int>, history: set<int>, purgeBlockers: set<int>)
    : map<int, (bool, bool)>
  {
    map id | id in ids :: (id in provisioned && id !in history, id in provisioned && id !in purgeBlockers)
  }

  /* ----- the service ----- */

  class DeviceService {
    const session: Session

    constructor (session: Session)
      ensures this.session == session
    {
      this.session := session;
    }

    method CreateDeviceType(code: string, platform: string) returns (error: Option<Code>)
      requires session.Clean()
      modifies session
      ensures session.Clean()
      ensures Settles(old(session.db), session.db, CreateType(old(session.db), code, platform), error)
    {
      error := ValidateDeviceTypePath(code, platform);
      if error.Some? {
        return;
      }
      if CodeTaken(session.db, code, None) {
        return Some(DeviceTypeExists);
      }
      var id := session.db.nextId;
      session.db := session.db.(types := session.db.types[id := DeviceType(code, platform, true)], nextId := id + 1);
      session.Commit();
    }

    method UpdateDeviceType(id: int, code: Option<string>, platform: Option<string>)
      returns (error: Option<Code>)
      requires session.Clean()
      modifies session
      ensures session.Clean()
      ensures Settles(old(session.db), session.db, UpdateType(old(session.db), id, code, platform), error)
    {
      if id !in session.db.types {
        return Some(DeviceTypeNotFound);
      }
      var row := session.db.types[id];
      var identityChanged := (code.Some? && code.value != row.code)
                             || (platform.Some? && platform.value != row.platform);
      if identityChanged && TypeHasDependencies(session.db, id) {
        return Some(DeviceTypeIdentityLocked);
      }
      var newCode := if code.Some? then code.value else row.code;
      var newPlatform := if platform.Some? then platform.value else row.platform;
      error := ValidateDeviceTypePath(newCode, newPlatform);
      if error.Some? {
        return;
      }
      if newCode != row.code && CodeTaken(session.db, newCode, Some(id)) {
        return Some(DeviceTypeExists);
      }
      if code.Some? {
        row := row.(code := code.value);
      }
      if platform.Some? {
        row := row.(platform := platform.value);
      }
      session.db := session.db.(types := session.db.types[id := row]);
      session.Commit();
    }

    method DeleteDeviceType(id: int) returns (error: Option<Code>)
      requires session.Clean()
      modifies session
      ensures session.Clean()
      ensures Settles(old(session.db), session.db, DeleteType(old(session.db), id), error)
    {
      if id !in session.db.types {
        return Some(DeviceTypeNotFound);
      }
      if TypeHasDependencies(session.db, id) {
        return Some(DeviceTypeHasDependencies);
      }
      session.db := session.db.(types := session.db.types - {id});
      session.Commit();
      error := None;
    }

    /** One query per referring table, instead of one guard per type. */
    method DeletableTypeIds(typeIds: seq<int>) returns (deletable: set<int>)
      ensures deletable == set id | id in typeIds && !TypeHasDependencies(session.db, id)
    {
      var db := session.db;
      var candidates := set id | id in typeIds;
      if candidates == {} {
        return {};
      }
      var blocked: set<int> := {};
      blocked := blocked + set d | d in db.devices && db.devices[d].typeId in candidates :: db.devices[d].typeId;
      blocked := blocked + set r | r in db.releases && db.releases[r].typeId in candidates :: db.releases[r].typeId;
      blocked := blocked + set p | && p in db.policies
                                   && db.policies[p].def.deviceTypeId.Some?
                                   && db.policies[p].def.deviceTypeId.value in candidates
                                 :: db.policies[p].def.deviceTypeId.value;
      return candidates - blocked;
    }

    method RegisterDevice(
      typeId: int, serial: int, rawMac: Option<string>, rawNetworkMac: Option<string>, otaEnabled: bool)
      returns (error: Option<Code>)
      requires session.Clean()
      modifies session
      ensures session.Clean()
      ensures Settles(old(session.db), session.db,
                      Register(old(session.db), typeId, serial, rawMac, rawNetworkMac, otaEnabled), error)
    {
      if typeId !in session.db.types {
        return Some(DeviceTypeNotFound);
      }
      if !session.db.types[typeId].isActive {
        return Some(DeviceTypeInactive);
      }
      var mac := StoredMac(rawMac);
      if mac.Failure? {
        return Some(mac.error);
      }
      if SerialTaken(session.db, serial, None) {
        return Some(SerialExists);
      }
      if MacTaken(session.db, mac.value, None) {
        return Some(MacExists);
      }
      var networkMac := StoredMac(rawNetworkMac);
      if networkMac.Failure? {
        return Some(networkMac.error);
      }
      var id := session.db.nextId;
      var row := Device(typeId, serial, mac.value, networkMac.value, Provisioned, otaEnabled, None, None, None, None);
      session.db := session.db.(devices := session.db.devices[id := row], nextId := id + 1);
      session.Commit();
      error := None;
    }

    method ChangeStatus(id: int, status: DeviceStatus) returns (error: Option<Code>)
      requires session.Clean()
      modifies session
      ensures session.Clean()
      ensures Settles(old(session.db), session.db, SetStatus(old(session.db), id, status), error)
    {
      if id !in session.db.devices {
        return Some(DeviceNotFound);
      }
      var row := session.db.devices[id];
      if status != row.status && !AllowedTransition(row.status, status) {
        return Some(InvalidDeviceTransition);
      }
      row := row.(status := status);
      if status.Retired? {
        row := row.(otaEnabled := false);
      }
      session.db := session.db.(devices := session.db.devices[id := row]);
      session.Commit();
      error := None;
    }

    method ChangeIdentity(id: int, c: IdentityChanges) returns (error: Option<Code>)
      requires session.Clean()
      modifies session
      ensures session.Clean()
      ensures Settles(old(session.db), session.db, UpdateIdentity(old(session.db), id, c), error)
    {
      if id !in session.db.devices {
        return Some(DeviceNotFound);
      }
      if IdentityLocked(session.db, id) {
        return Some(DeviceIdentityLocked);
      }
      if c.typeId.Some? {
        if c.typeId.value !in session.db.types {
          return Some(DeviceTypeNotFound);
        }
        if !session.db.types[c.typeId.value].isActive {
          return Some(DeviceTypeInactive);
        }
      }
      if c.serial.Some? && SerialTaken(session.db, c.serial.value, Some(id)) {
        return Some(SerialExists);
      }
      var row := session.db.devices[id];
      if c.rawMac.Some? {
        var mac := StoredMac(c.rawMac.value);
        if mac.Failure? {
          return Some(mac.error);
        }
        if MacTaken(session.db, mac.value, Some(id)) {
          return Some(MacExists);
        }
        row := row.(mac := mac.value);
      }
      if c.typeId.Some? {
        row := row.(typeId := c.typeId.value);
      }
      if c.serial.Some? {
        row := row.(serial := c.serial.value);
      }
      session.db := session.db.(devices := session.db.devices[id := row]);
      session.Commit();
      error := None;
    }

    method PurgeDevice(id: int) returns (error: Option<Code>)
      requires session.Clean()
      modifies session
      ensures session.Clean()
      ensures Settles(old(session.db), session.db, Purge(old(session.db), id), error)
    {
      if id !in session.db.devices {
        return Some(DeviceNotFound);
      }
      if !session.db.devices[id].status.Provisioned? || HasPurgeBlockers(session.db, id) {
        return Some(DeviceHasDependencies);
      }
      var tokens := session.db.tokens;
      session.db := session.db.(
        devices := session.db.devices - {id},
        tokens := map t | t in tokens && tokens[t].deviceId != id :: tokens[t]);
      session.Commit();
      error := None;
    }

    /** `can_update_identity` and `can_purge` for a page of devices at once. */
    method DeviceActionEligibility(ids: set<int>) returns (eligible: map<int, (bool, bool)>)
      requires ids <= session.db.devices.Keys
      ensures eligible == map id | id in ids ::
                (!IdentityLocked(session.db, id),
                 session.db.devices[id].status.Provisioned? && !HasPurgeBlockers(session.db, id))
    {
      var db := session.db;
      var provisioned := set id | id in ids && db.devices[id].status.Provisioned?;
      if provisioned == {} {
        assert forall id :: id in ids ==> id !in provisioned;
        return map id | id in ids :: (false, false);
      }
      var tokenIds := TokenOwners(db, provisioned);
      var attemptIds := AttemptOwners(db, provisioned);
      var policyIds := PolicyTargets(db, provisioned);
      var communicationIds := db.communications * provisioned;
      var history := tokenIds + attemptIds + policyIds + communicationIds;
      var purgeBlockers := attemptIds + policyIds + communicationIds;
      assert forall id :: id in purgeBlockers <==> id in provisioned && HasPurgeBlockers(db, id);
      assert forall id :: id in history <==> id in provisioned && HasHistory(db, id);
      return Reported(ids, provisioned, history, purgeBlockers);
    }

    method ChangeOtaEnabled(id: int, otaEnabled: bool) returns (error: Option<Code>)
      requires session.Clean()
      modifies session
      ensures session.Clean()
      ensures Settles(old(session.db), session.db, SetOtaEnabled(old(session.db), id, otaEnabled), error)
    {
      if id !in session.db.devices {
        return Some(DeviceNotFound);
      }
      var row := session.db.devices[id];
      row := row.(otaEnabled := otaEnabled);
      session.db := session.db.(devices := session.db.devices[id := row]);
      session.Commit();
      error := None;
    }

    method ChangeTypeActive(id: int, isActive: bool) returns (error: Option<Code>)
      requires session.Clean()
      modifies session
      ensures session.Clean()
      ensures Settles(old(session.db), session.db, SetTypeActive(old(session.db), id, isActive), error)
    {
      if id !in session.db.types {
        return Some(DeviceTypeNotFound);
      }
      var row := session.db.types[id];
      row := row.(isActive := isActive);
      session.db := session.db.(types := session.db.types[id := row]);
      session.Commit();
      error := None;
    }

    method AssertKnownVersion(id: int, version: Option<string>) returns (error: Option<Code>)
      requires session.Clean()
      modifies session
      ensures session.Clean()
      ensures Settles(old(session.db), session.db, SetKnownVersion(old(session.db), id, version), error)
    {
      if id !in session.db.devices {
        return Some(DeviceNotFound);
      }
      var row := session.db.devices[id];
      if version.None? {
        row := row.(currentVersion := None, versionSource := None);
      } else {
        if ParseVersion(version.value).None? {
          return Some(InvalidVersion);
        }
        row := row.(currentVersion := version);
        row := row.(versionSource := Some(AdminAsserted));
      }
      session.db := session.db.(devices := session.db.devices[id := row]);
      session.Commit();
      error := None;
    }
  }

  /* ----- batch answers agree with the guards ----- */

  const NO_IDENTITY_CHANGES := IdentityChanges(None, None, None)

  /** What the batch reports for an existing device is what the two calls would do. */
  lemma EligibilityMatchesGuards(db: Db, id: int)
    requires id in db.devices
    ensures !IdentityLocked(db, id) <==> UpdateIdentity(db, id, NO_IDENTITY_CHANGES).Success?
    ensures !IdentityLocked(db, id)
            <==> forall c :: UpdateIdentity(db, id, c) != Failure(DeviceIdentityLocked)
    ensures db.devices[id].status.Provisioned? && !HasPurgeBlockers(db, id) <==> Purge(db, id).Success?
  {
  }

  lemma DeletableMatchesGuard(db: Db, id: int)
    requires id in db.types
    ensures !TypeHasDependencies(db, id) <==> DeleteType(db, id).Success?
  {
  }
}
