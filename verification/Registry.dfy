/** What the calls on device types, devices and tokens accept, and what they write,
    column by column (app/services/devices.py, app/services/device_tokens.py). */
module Registry {
  import opened Wrappers
  import opened Text
  import opened Tables
  import opened Version
  import opened UpdatePath
  import opened Devices
  import opened DeviceAuth

  /* ----- addresses ----- */

  /** Twelve characters as six pairs, joined by `sep`. */
  function Spelled(s: string, sep: string): string
    requires |s| == 12
  {
    s[..2] + sep + s[2..4] + sep + s[4..6] + sep + s[6..8] + sep + s[8..10] + sep + s[10..]
  }

  /** Letters, of either case, and digits. */
  ghost predicate Alphanumeric(s: string) {
    forall i :: 0 <= i < |s| ==> 'a' <= s[i] <= 'z' || 'A' <= s[i] <= 'Z' || '0' <= s[i] <= '9'
  }

  lemma {:induction false} WithoutAppends(s: string, sep: char, t: string)
    requires Free(s, sep)
    ensures Without(s + [sep] + t, sep) == s + Without(t, sep)
  {
    WithoutOfConcat(s, [sep] + t, sep);
    WithoutIsFree(s, sep);
    assert s + [sep] + t == s + ([sep] + t);
    assert ([sep] + t)[1..] == t;
  }

  /** Three pairs joined by the separator, followed by `rest`. */
  lemma ThreePairsWithout(s: string, sep: char, rest: string)
    requires |s| == 6 && Free(s, sep)
    ensures Without(s[..2] + [sep] + s[2..4] + [sep] + s[4..] + [sep] + rest, sep) == s + Without(rest, sep)
  {
    var t2 := s[4..] + [sep] + rest;
    var t1 := s[2..4] + [sep] + t2;
    WithoutAppends(s[4..], sep, rest);
    WithoutAppends(s[2..4], sep, t2);
    WithoutAppends(s[..2], sep, t1);
    assert s[..2] + [sep] + s[2..4] + [sep] + s[4..] + [sep] + rest == s[..2] + [sep] + t1;
    assert s[..2] + (s[2..4] + (s[4..] + Without(rest, sep))) == s + Without(rest, sep);
  }

  lemma LastPairsWithout(s: string, sep: char)
    requires |s| == 6 && Free(s, sep)
    ensures Without(s[..2] + [sep] + s[2..4] + [sep] + s[4..], sep) == s
  {
    var t1 := s[2..4] + [sep] + s[4..];
    WithoutIsFree(s[4..], sep);
    WithoutAppends(s[2..4], sep, s[4..]);
    WithoutAppends(s[..2], sep, t1);
    assert s[..2] + [sep] + s[2..4] + [sep] + s[4..] == s[..2] + [sep] + t1;
  }

  lemma SpelledWithout(s: string, sep: char)
    requires |s| == 12 && Free(s, sep)
    ensures Without(Spelled(s, [sep]), sep) == s
  {
    var front, back := s[..6], s[6..];
    var rest := back[..2] + [sep] + back[2..4] + [sep] + back[4..];
    ThreePairsWithout(front, sep, rest);
    LastPairsWithout(back, sep);
    assert front[..2] == s[..2] && front[2..4] == s[2..4] && front[4..] == s[4..6];
    assert back[..2] == s[6..8] && back[2..4] == s[8..10] && back[4..] == s[10..];
    assert Spelled(s, [sep]) == front[..2] + [sep] + front[2..4] + [sep] + front[4..] + [sep] + rest;
    assert front + back == s;
  }

  lemma PairedIsSpelled(s: string)
    requires |s| == 12
    ensures Paired(s) == Spelled(s, ":")
  {
    var p5, p4, p3, p2, p1 := s[10..], s[8..], s[6..], s[4..], s[2..];
    assert p4[2..] == p5 && p3[2..] == p4 && p2[2..] == p3 && p1[2..] == p2;
    assert Paired(p5) == s[10..];
    assert Paired(p4) == s[8..10] + ":" + Paired(p5);
    assert Paired(p3) == s[6..8] + ":" + Paired(p4);
    assert Paired(p2) == s[4..6] + ":" + Paired(p3);
    assert Paired(p1) == s[2..4] + ":" + Paired(p2);
    assert Paired(s) == s[..2] + ":" + Paired(p1);
  }

  lemma PlainIsFree(s: string)
    requires Alphanumeric(s)
    ensures Free(s, '-') && Free(s, ':')
  {
  }

  lemma CleanedOfPlain(mac: string, s: string)
    requires |s| == 12 && Alphanumeric(s) && Without(Without(mac, '-'), ':') == s
    ensures NormalizeMac(mac) == Success(Spelled(Upper(s), ":"))
  {
    assert !IsSpace(s[0]) && !IsSpace(s[11]);
    assert Strip(s) == s;
    PairedIsSpelled(Upper(s));
  }

  /** However an address of twelve letters and digits is spelled, in either case, plain,
      with hyphens or with colons, it becomes its upper-case pairs joined by colons. */
  lemma SpellingsNormalizeAlike(s: string)
    requires |s| == 12 && Alphanumeric(s)
    ensures |Upper(s)| == 12 && forall i :: 0 <= i < 12 ==>
              Upper(s)[i] == if 'a' <= s[i] <= 'z' then (s[i] as int - 32) as char else s[i]
    ensures NormalizeMac(s) == Success(Spelled(Upper(s), ":"))
    ensures NormalizeMac(Spelled(s, "-")) == Success(Spelled(Upper(s), ":"))
    ensures NormalizeMac(Spelled(s, ":")) == Success(Spelled(Upper(s), ":"))
  {
    PlainIsFree(s);
    WithoutIsFree(s, '-');
    WithoutIsFree(s, ':');
    SpelledWithout(s, '-');
    SpelledWithout(s, ':');
    WithoutIsFree(Spelled(s, ":"), '-');
    assert Free(Spelled(s, ":"), '-');
    CleanedOfPlain(s, s);
    CleanedOfPlain(Spelled(s, "-"), s);
    CleanedOfPlain(Spelled(s, ":"), s);
  }

  /** What is stored for a submitted address: nothing for an absent or blank one, the
      normal form of the trimmed one otherwise, and a refusal where it has none. */
  lemma SubmittedAddress(raw: Option<string>)
    ensures raw.None? || Strip(raw.value) == "" ==> StoredMac(raw) == Success(None)
    ensures raw.Some? && Strip(raw.value) != "" ==>
              var mac := NormalizeMac(Strip(raw.value));
              StoredMac(raw) == if mac.Success? then Success(Some(mac.value)) else Failure(InvalidMac)
  {
  }

  /* ----- device types ----- */

  /** Of all tables only this row of the types was written. */
  ghost predicate OnlyTypeWritten(db: Db, next: Db, id: int) {
    && next == db.(types := next.types, nextId := next.nextId)
    && id in next.types && next.types.Keys == db.types.Keys + {id}
    && forall j :: j in db.types && j != id ==> next.types[j] == db.types[j]
  }

  /** Something refers to the type: a device, a release or a policy. */
  ghost predicate TypeReferred(db: Db, id: int) {
    || (exists d :: d in db.devices && db.devices[d].typeId == id)
    || (exists r :: r in db.releases && db.releases[r].typeId == id)
    || (exists p :: p in db.policies && db.policies[p].def.deviceTypeId == Some(id))
  }

  ghost predicate CodeFree(db: Db, code: string, id: int) {
    forall j :: j in db.types && j != id ==> db.types[j].code != code
  }

  lemma TypeIsAdded(db: Db, code: string, platform: string)
    requires forall id :: id in db.types ==> id < db.nextId
    ensures CreateType(db, code, platform).Success?
            <==> ValidateDeviceTypePath(code, platform).None? && CodeFree(db, code, db.nextId)
    ensures CreateType(db, code, platform) == Failure(DeviceTypeExists)
            <==> ValidateDeviceTypePath(code, platform).None? && !CodeFree(db, code, db.nextId)
    ensures CreateType(db, code, platform).Success? ==>
              var next := CreateType(db, code, platform).value;
              && OnlyTypeWritten(db, next, db.nextId) && next.nextId == db.nextId + 1 && db.nextId !in db.types
              && var t := next.types[db.nextId]; t.code == code && t.platform == platform && t.isActive
  {
  }

  /** A type is renamed, in whole or in part, only while nothing refers to it and the
      new code is free; its activity stays. Sending what is stored already is no
      renaming, and needs no free code. */
  lemma TypeIsEdited(db: Db, id: int, code: Option<string>, platform: Option<string>)
    ensures UpdateType(db, id, code, platform).Success?
            <==> && id in db.types
                 && var c := if code.Some? then code.value else db.types[id].code;
                    var p := if platform.Some? then platform.value else db.types[id].platform;
                    && ValidateDeviceTypePath(c, p).None?
                    && (c != db.types[id].code ==> CodeFree(db, c, id))
                    && (c != db.types[id].code || p != db.types[id].platform ==> !TypeReferred(db, id))
    ensures UpdateType(db, id, code, platform) == Failure(DeviceTypeIdentityLocked)
            <==> && id in db.types && TypeReferred(db, id)
                 && (|| (code.Some? && code.value != db.types[id].code)
                     || (platform.Some? && platform.value != db.types[id].platform))
    ensures UpdateType(db, id, code, platform).Success? ==>
              var next := UpdateType(db, id, code, platform).value;
              && OnlyTypeWritten(db, next, id) && next.nextId == db.nextId
              && next.types[id].code == (if code.Some? then code.value else db.types[id].code)
              && next.types[id].platform == (if platform.Some? then platform.value else db.types[id].platform)
              && next.types[id].isActive == db.types[id].isActive
  {
    assert TypeHasDependencies(db, id) <==> TypeReferred(db, id);
  }

  lemma TypeIsSwitched(db: Db, id: int, isActive: bool)
    ensures SetTypeActive(db, id, isActive).Success? <==> id in db.types
    ensures id in db.types ==>
              var next := SetTypeActive(db, id, isActive).value;
              && OnlyTypeWritten(db, next, id) && next.nextId == db.nextId
              && next.types[id].isActive == isActive
              && next.types[id].code == db.types[id].code && next.types[id].platform == db.types[id].platform
  {
  }

  lemma TypeIsDeleted(db: Db, id: int)
    ensures DeleteType(db, id).Success? <==> id in db.types && !TypeReferred(db, id)
    ensures DeleteType(db, id) == Failure(DeviceTypeHasDependencies) <==> id in db.types && TypeReferred(db, id)
    ensures DeleteType(db, id).Success? ==>
              var next := DeleteType(db, id).value;
              && next == db.(types := next.types) && next.types.Keys == db.types.Keys - {id}
              && forall j :: j in next.types ==> next.types[j] == db.types[j]
  {
    assert TypeHasDependencies(db, id) <==> TypeReferred(db, id);
  }

  /* ----- devices ----- */

  /** Of all tables only this row of the devices was written. */
  ghost predicate OnlyDeviceWritten(db: Db, next: Db, id: int) {
    && next == db.(devices := next.devices, nextId := next.nextId)
    && id in next.devices && next.devices.Keys == db.devices.Keys + {id}
    && forall j :: j in db.devices && j != id ==> next.devices[j] == db.devices[j]
  }

  ghost predicate SerialFree(db: Db, serial: int, id: int) {
    forall j :: j in db.devices && j != id ==> db.devices[j].serial != serial
  }

  ghost predicate MacFree(db: Db, mac: Option<string>, id: int) {
    mac.Some? ==> forall j :: j in db.devices && j != id ==> db.devices[j].mac != mac
  }

  /** A device is registered under an active type, with a serial and an eFuse address no
      other device has; it starts provisioned, with nothing known about it. */
  lemma DeviceIsRegistered(
    db: Db, typeId: int, serial: int, rawMac: Option<string>, rawNetworkMac: Option<string>, otaEnabled: bool)
    requires forall id :: id in db.devices ==> id < db.nextId
    ensures Register(db, typeId, serial, rawMac, rawNetworkMac, otaEnabled).Success?
            <==> && typeId in db.types && db.types[typeId].isActive
                 && StoredMac(rawMac).Success? && StoredMac(rawNetworkMac).Success?
                 && SerialFree(db, serial, db.nextId) && MacFree(db, StoredMac(rawMac).value, db.nextId)
    ensures Register(db, typeId, serial, rawMac, rawNetworkMac, otaEnabled) == Failure(SerialExists)
            <==> && typeId in db.types && db.types[typeId].isActive && StoredMac(rawMac).Success?
                 && !SerialFree(db, serial, db.nextId)
    ensures Register(db, typeId, serial, rawMac, rawNetworkMac, otaEnabled) == Failure(MacExists)
            <==> && typeId in db.types && db.types[typeId].isActive && StoredMac(rawMac).Success?
                 && SerialFree(db, serial, db.nextId) && !MacFree(db, StoredMac(rawMac).value, db.nextId)
    ensures Register(db, typeId, serial, rawMac, rawNetworkMac, otaEnabled).Success? ==>
              var next := Register(db, typeId, serial, rawMac, rawNetworkMac, otaEnabled).value;
              && OnlyDeviceWritten(db, next, db.nextId) && next.nextId == db.nextId + 1
              && db.nextId !in db.devices
              && var d := next.devices[db.nextId];
                 && d.typeId == typeId && d.serial == serial
                 && Success(d.mac) == StoredMac(rawMac) && Success(d.networkMac) == StoredMac(rawNetworkMac)
                 && d.status == Provisioned && d.otaEnabled == otaEnabled
                 && d.currentVersion.None? && d.versionSource.None?
                 && d.lastSeenAt.None? && d.lastManifestCheckAt.None?
  {
    assert SerialTaken(db, serial, None) <==> !SerialFree(db, serial, db.nextId);
    if StoredMac(rawMac).Success? {
      assert MacTaken(db, StoredMac(rawMac).value, None) <==> !MacFree(db, StoredMac(rawMac).value, db.nextId);
    }
  }

  /** The eight changes of status; keeping the status is accepted too. Retirement takes
      the flag down, and nothing else does more than write the status. */
  lemma StatusIsChanged(db: Db, id: int, status: DeviceStatus)
    ensures SetStatus(db, id, status).Success?
            <==> && id in db.devices
                 && (|| status == db.devices[id].status
                     || (db.devices[id].status, status)
                        in {(Provisioned, Active), (Provisioned, Disabled), (Provisioned, Retired),
                            (Active, Disabled), (Active, Retired),
                            (Disabled, Active), (Disabled, Retired), (Retired, Disabled)})
    ensures SetStatus(db, id, status) == Failure(DeviceNotFound) <==> id !in db.devices
    ensures SetStatus(db, id, status).Failure? && id in db.devices ==>
              SetStatus(db, id, status) == Failure(InvalidDeviceTransition)
    ensures SetStatus(db, id, status).Success? ==>
              var next := SetStatus(db, id, status).value;
              && OnlyDeviceWritten(db, next, id) && next.nextId == db.nextId
              && next.devices[id].status == status
              && next.devices[id].otaEnabled == (db.devices[id].otaEnabled && status != Retired)
              && next.devices[id]
                 == db.devices[id].(status := next.devices[id].status, otaEnabled := next.devices[id].otaEnabled)
  {
  }

  /** Something that outlives the device refers to it. */
  ghost predicate DeviceReferred(db: Db, id: int) {
    || id in db.communications
    || (exists a :: a in db.attempts && a.deviceId == id)
    || (exists p :: p in db.policies && db.policies[p].def.deviceId == Some(id))
  }

  ghost predicate OwnsToken(db: Db, id: int) {
    exists t :: t in db.tokens && db.tokens[t].deviceId == id
  }

  lemma HistoryIs(db: Db, id: int)
    ensures HasPurgeBlockers(db, id) <==> DeviceReferred(db, id)
    ensures HasHistory(db, id) <==> DeviceReferred(db, id) || OwnsToken(db, id)
  {
    assert HasToken(db, id) <==> OwnsToken(db, id);
  }

  /** A device is renamed only while it is provisioned and has no history, tokens
      included, to an active type and to a serial and address no other device has. */
  lemma IdentityIsChanged(db: Db, id: int, c: IdentityChanges)
    ensures UpdateIdentity(db, id, c).Success?
            <==> && id in db.devices && db.devices[id].status == Provisioned
                 && !DeviceReferred(db, id) && !OwnsToken(db, id)
                 && (c.typeId.Some? ==> c.typeId.value in db.types && db.types[c.typeId.value].isActive)
                 && (c.serial.Some? ==> SerialFree(db, c.serial.value, id))
                 && (c.rawMac.Some? ==>
                       StoredMac(c.rawMac.value).Success? && MacFree(db, StoredMac(c.rawMac.value).value, id))
    ensures UpdateIdentity(db, id, c) == Failure(DeviceIdentityLocked)
            <==> && id in db.devices
                 && (db.devices[id].status != Provisioned || DeviceReferred(db, id) || OwnsToken(db, id))
    ensures UpdateIdentity(db, id, c).Success? ==>
              var next := UpdateIdentity(db, id, c).value;
              && OnlyDeviceWritten(db, next, id) && next.nextId == db.nextId
              && var d, e := db.devices[id], next.devices[id];
                 && e.typeId == (if c.typeId.Some? then c.typeId.value else d.typeId)
                 && e.serial == (if c.serial.Some? then c.serial.value else d.serial)
                 && Success(e.mac) == (if c.rawMac.Some? then StoredMac(c.rawMac.value) else Success(d.mac))
                 && e == d.(typeId := e.typeId, serial := e.serial, mac := e.mac)
  {
    HistoryIs(db, id);
    if c.serial.Some? {
      assert SerialTaken(db, c.serial.value, Some(id)) <==> !SerialFree(db, c.serial.value, id);
    }
    if c.rawMac.Some? && StoredMac(c.rawMac.value).Success? {
      var mac := StoredMac(c.rawMac.value).value;
      assert MacTaken(db, mac, Some(id)) <==> !MacFree(db, mac, id);
    }
  }

  /** A device is purged only while it is provisioned and nothing but its own tokens
      refers to it; row and tokens go, and everything else stays. */
  lemma DeviceIsPurged(db: Db, id: int)
    ensures Purge(db, id).Success?
            <==> id in db.devices && db.devices[id].status == Provisioned && !DeviceReferred(db, id)
    ensures Purge(db, id) == Failure(DeviceHasDependencies)
            <==> id in db.devices && (db.devices[id].status != Provisioned || DeviceReferred(db, id))
    ensures Purge(db, id).Success? ==>
              var next := Purge(db, id).value;
              && next == db.(devices := next.devices, tokens := next.tokens)
              && next.devices.Keys == db.devices.Keys - {id}
              && (forall j :: j in next.devices ==> next.devices[j] == db.devices[j])
              && (forall t :: t in next.tokens <==> t in db.tokens && db.tokens[t].deviceId != id)
              && (forall t :: t in next.tokens ==> next.tokens[t] == db.tokens[t])
  {
    HistoryIs(db, id);
  }

  lemma FlagIsSet(db: Db, id: int, otaEnabled: bool)
    ensures SetOtaEnabled(db, id, otaEnabled).Success? <==> id in db.devices
    ensures id in db.devices ==>
              var next := SetOtaEnabled(db, id, otaEnabled).value;
              && OnlyDeviceWritten(db, next, id) && next.nextId == db.nextId
              && next.devices[id].otaEnabled == otaEnabled
              && next.devices[id] == db.devices[id].(otaEnabled := next.devices[id].otaEnabled)
  {
  }

  /** An administrator's version is stored, with its source, if it parses; without one
      both columns are cleared. */
  lemma VersionIsAsserted(db: Db, id: int, version: Option<string>)
    ensures SetKnownVersion(db, id, version).Success?
            <==> id in db.devices && (version.Some? ==> IsValidVersion(version.value))
    ensures SetKnownVersion(db, id, version).Success? ==>
              var next := SetKnownVersion(db, id, version).value;
              && OnlyDeviceWritten(db, next, id) && next.nextId == db.nextId
              && next.devices[id].currentVersion == version
              && next.devices[id].versionSource == (if version.Some? then Some(AdminAsserted) else None)
              && next.devices[id]
                 == db.devices[id].(currentVersion := next.devices[id].currentVersion,
                                    versionSource := next.devices[id].versionSource)
  {
  }

  /* ----- tokens ----- */

  /** Of all tables only this row of the tokens was written. */
  ghost predicate OnlyTokenWritten(db: Db, next: Db, t: int) {
    && next == db.(tokens := next.tokens, nextId := next.nextId)
    && t in next.tokens && next.tokens.Keys == db.tokens.Keys + {t}
    && forall j :: j in db.tokens && j != t ==> next.tokens[j] == db.tokens[j]
  }

  /** A token issued to an admitted device gets it in at once. */
  lemma IssuedTokenWorks(db: Db, hash: string -> string, id: int, secret: string, c: Credentials)
    requires SerialsUnique(db) && forall t :: t in db.tokens ==> t < db.nextId
    ensures IssueToken(db, id, hash(secret)).Success?
            <==> id in db.devices && forall t :: t in db.tokens ==> db.tokens[t].hash != hash(secret)
    ensures IssueToken(db, id, hash(secret)).Success? ==>
              var next := IssueToken(db, id, hash(secret)).value;
              && OnlyTokenWritten(db, next, db.nextId) && next.nextId == db.nextId + 1
              && LiveToken(next, db.nextId, id, hash(secret))
              && (c.token == Some(secret) && Strip(secret) != "" && c.serial.Some?
                  && ParseSerial(c.serial.value) == Some(db.devices[id].serial)
                  && (db.devices[id].status.Provisioned? || db.devices[id].status.Active?) ==>
                    Identify(next, hash, c) == Success(id))
  {
    var issued := IssueToken(db, id, hash(secret));
    if issued.Success? {
      assert LiveToken(issued.value, db.nextId, id, hash(secret));
      assert SerialsUnique(issued.value);
      GetsInIff(issued.value, hash, c, id);
    }
  }

  /** Revoking needs a token, of the owner if one is named; it is stamped and dead. */
  lemma TokenIsRevoked(db: Db, t: int, owner: Option<int>, now: int)
    ensures RevokeToken(db, t, owner, now).Success?
            <==> t in db.tokens && (owner.Some? ==> db.tokens[t].deviceId == owner.value)
    ensures RevokeToken(db, t, owner, now).Success? ==>
              var next := RevokeToken(db, t, owner, now).value;
              && OnlyTokenWritten(db, next, t) && next.nextId == db.nextId
              && !next.tokens[t].isActive && next.tokens[t].revokedAt == Some(now)
              && next.tokens[t].deviceId == db.tokens[t].deviceId && next.tokens[t].hash == db.tokens[t].hash
  {
  }

  /** Rotation needs a token of the device and an unused digest; the old token is dead,
      with its first revocation time, the new one alive, and no other is touched. */
  lemma TokenIsRotated(db: Db, id: int, t: int, digest: string, now: int)
    requires forall j :: j in db.tokens ==> j < db.nextId
    ensures RotateToken(db, id, t, digest, now).Success?
            <==> && t in db.tokens && db.tokens[t].deviceId == id && id in db.devices
                 && forall j :: j in db.tokens ==> db.tokens[j].hash != digest
    ensures RotateToken(db, id, t, digest, now).Success? ==>
              var next := RotateToken(db, id, t, digest, now).value;
              && next == db.(tokens := next.tokens, nextId := db.nextId + 1)
              && next.tokens.Keys == db.tokens.Keys + {db.nextId} && LiveToken(next, db.nextId, id, digest)
              && (db.tokens[t].revokedAt.None? ==> !next.tokens[t].isActive)
              && next.tokens[t].revokedAt
                 == (if db.tokens[t].revokedAt.Some? then db.tokens[t].revokedAt else Some(now))
              && forall j :: j in db.tokens && j != t ==> next.tokens[j] == db.tokens[j]
  {
    if t in db.tokens && db.tokens[t].deviceId == id {
      var tokens := if db.tokens[t].revokedAt.None? then db.tokens[t := Revoked(db.tokens[t], now)] else db.tokens;
      assert forall j :: j in db.tokens ==> j in tokens && tokens[j].hash == db.tokens[j].hash;
      assert HashTaken(db.(tokens := tokens), digest) <==> HashTaken(db, digest);
    }
  }
}
