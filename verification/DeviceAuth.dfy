/** Device tokens and the authentication of device requests
    (app/services/device_tokens.py, app/services/device_auth.py). */
module DeviceAuth {
  import opened Wrappers
  import opened Text
  import opened Tables
  import opened Devices

  /* ----- tokens ----- */

  predicate HashTaken(db: Db, hash: string) {
    exists id :: id in db.tokens && db.tokens[id].hash == hash
  }

  /** A token for an existing device; the unique hash column refuses a repeat. */
  function IssueToken(db: Db, deviceId: int, hash: string): Result<Db, Code> {
    if deviceId !in db.devices then Failure(DeviceNotFound)
    else if HashTaken(db, hash) then Failure(TokenHashExists)
    else
      Success(db.(tokens := db.tokens[db.nextId := Token(deviceId, hash, true, None, None)],
                  nextId := db.nextId + 1))
  }

  function Revoked(t: Token, now: int): Token {
    t.(revokedAt := Some(now), isActive := false)
  }

  /** An already revoked token keeps its revocation time and is still rotated. */
  function RotateToken(db: Db, deviceId: int, tokenId: int, hash: string, now: int): Result<Db, Code> {
    if tokenId !in db.tokens || db.tokens[tokenId].deviceId != deviceId then Failure(TokenNotFound)
    else
      var t := db.tokens[tokenId];
      var tokens := if t.revokedAt.None? then db.tokens[tokenId := Revoked(t, now)] else db.tokens;
      IssueToken(db.(tokens := tokens), deviceId, hash)
  }

  function RevokeToken(db: Db, tokenId: int, deviceId: Option<int>, now: int): Result<Db, Code> {
    if tokenId !in db.tokens || (deviceId.Some? && db.tokens[tokenId].deviceId != deviceId.value)
    then Failure(TokenNotFound)
    else Success(db.(tokens := db.tokens[tokenId := Revoked(db.tokens[tokenId], now)]))
  }

  /** Expiry is not part of the test. */
  predicate Usable(t: Token, hash: string) {
    t.hash == hash && t.isActive && t.revokedAt.None?
  }

  ghost predicate HashesUnique(db: Db) {
    forall i, j :: i in db.tokens && j in db.tokens && db.tokens[i].hash == db.tokens[j].hash ==> i == j
  }

  ghost predicate SerialsUnique(db: Db) {
    forall i, j :: i in db.devices && j in db.devices && db.devices[i].serial == db.devices[j].serial ==> i == j
  }

  class DeviceTokenService {
    const session: Session

    constructor (session: Session)
      ensures this.session == session
    {
      this.session := session;
    }

    method Issue(deviceId: int, hash: string) returns (error: Option<Code>)
      requires session.Clean()
      modifies session
      ensures session.Clean()
      ensures Settles(old(session.db), session.db, IssueToken(old(session.db), deviceId, hash), error)
    {
      if deviceId !in session.db.devices {
        return Some(DeviceNotFound);
      }
      if HashTaken(session.db, hash) {
        return Some(TokenHashExists);
      }
      var id := session.db.nextId;
      session.db := session.db.(tokens := session.db.tokens[id := Token(deviceId, hash, true, None, None)],
                                nextId := id + 1);
      session.Commit();
      error := None;
    }

    /** The revocation of the current token is rolled back if the issue fails. */
    method Rotate(deviceId: int, tokenId: int, hash: string, now: int) returns (error: Option<Code>)
      requires session.Clean()
      modifies session
      ensures session.Clean()
      ensures Settles(old(session.db), session.db,
                      RotateToken(old(session.db), deviceId, tokenId, hash, now), error)
    {
      if tokenId !in session.db.tokens || session.db.tokens[tokenId].deviceId != deviceId {
        return Some(TokenNotFound);
      }
      var current := session.db.tokens[tokenId];
      if current.revokedAt.None? {
        current := current.(revokedAt := Some(now));
        current := current.(isActive := false);
        session.db := session.db.(tokens := session.db.tokens[tokenId := current]);
      }
      if deviceId !in session.db.devices {
        session.Rollback();
        return Some(DeviceNotFound);
      }
      if HashTaken(session.db, hash) {
        session.Rollback();
        return Some(TokenHashExists);
      }
      var id := session.db.nextId;
      session.db := session.db.(tokens := session.db.tokens[id := Token(deviceId, hash, true, None, None)],
                                nextId := id + 1);
      session.Commit();
      error := None;
    }

    method Revoke(tokenId: int, deviceId: Option<int>, now: int) returns (error: Option<Code>)
      requires session.Clean()
      modifies session
      ensures session.Clean()
      ensures Settles(old(session.db), session.db, RevokeToken(old(session.db), tokenId, deviceId, now), error)
    {
      if tokenId !in session.db.tokens
         || (deviceId.Some? && session.db.tokens[tokenId].deviceId != deviceId.value) {
        return Some(TokenNotFound);
      }
      var token := session.db.tokens[tokenId];
      token := token.(revokedAt := Some(now));
      token := token.(isActive := false);
      session.db := session.db.(tokens := session.db.tokens[tokenId := token]);
      session.Commit();
      error := None;
    }

    method FindActiveByHash(hash: string) returns (found: Option<int>)
      requires HashesUnique(session.db)
      ensures found.Some? ==> found.value in session.db.tokens
      ensures forall id :: id in session.db.tokens && Usable(session.db.tokens[id], hash) <==> found == Some(id)
    {
      var tokens := session.db.tokens;
      var matching := set id | id in tokens && Usable(tokens[id], hash);
      if matching == {} {
        assert forall id :: id in tokens && Usable(tokens[id], hash) ==> id in matching;
        return None;
      }
      var id := PickAny(matching);
      assert forall other :: other in matching ==> tokens[other].hash == tokens[id].hash;
      return Some(id);
    }
  }

  /* ----- authentication ----- */

  const MAX_SERIAL := 9_223_372_036_854_775_807

  datatype AuthFailure =
    | MissingSerial | MissingToken | InvalidToken
    | UnknownDevice | DeviceDisabled

  /** 401 keeps the device's grace period, 403 locks it out at once. */
  function HttpStatus(f: AuthFailure): int {
    match f
    case MissingSerial => 401
    case MissingToken => 401
    case InvalidToken => 401
    case UnknownDevice => 403
    case DeviceDisabled => 403
  }

  predicate Absent(header: Option<string>) {
    header.None? || Strip(header.value) == ""
  }

  /** One to nineteen digits, within the signed 64-bit range. */
  function ParseSerial(header: string): Option<nat> {
    var digits := Strip(header);
    if AllDigits(digits) && 1 <= |digits| <= 19 && ToNat(digits) <= MAX_SERIAL
    then Some(ToNat(digits)) else None
  }

  datatype Credentials = Credentials(serial: Option<string>, mac: Option<string>, token: Option<string>)

  /** The device owns a usable token with this digest. */
  ghost predicate Holds(db: Db, id: int, tokenId: int, digest: string) {
    tokenId in db.tokens && Usable(db.tokens[tokenId], digest) && db.tokens[tokenId].deviceId == id
  }

  /** Who the credentials prove the caller to be. The MAC header has no say. */
  ghost predicate Proves(db: Db, hash: string -> string, c: Credentials, id: int) {
    && !Absent(c.serial) && !Absent(c.token)
    && id in db.devices
    && ParseSerial(c.serial.value) == Some(db.devices[id].serial)
    && (db.devices[id].status.Provisioned? || db.devices[id].status.Active?)
    && exists t :: Holds(db, id, t, hash(c.token.value))
  }

  ghost predicate KnownSerial(db: Db, c: Credentials) {
    && c.serial.Some? && ParseSerial(c.serial.value).Some?
    && exists id :: id in db.devices && db.devices[id].serial == ParseSerial(c.serial.value).value
  }

  ghost predicate Blocked(db: Db, c: Credentials) {
    c.serial.Some? && exists id ::
      && id in db.devices && ParseSerial(c.serial.value) == Some(db.devices[id].serial)
      && (db.devices[id].status.Disabled? || db.devices[id].status.Retired?)
  }

  /** The outcome in the order of the checks. */
  ghost function Identify(db: Db, hash: string -> string, c: Credentials): Result<int, AuthFailure> {
    if Absent(c.serial) then Failure(MissingSerial)
    else if Absent(c.token) then Failure(MissingToken)
    else if !KnownSerial(db, c) then Failure(UnknownDevice)
    else if Blocked(db, c) then Failure(DeviceDisabled)
    else if exists id :: Proves(db, hash, c, id) then
      var id :| Proves(db, hash, c, id);
      Success(id)
    else Failure(InvalidToken)
  }

  function Seen(db: Db, id: int, now: int): Db
    requires id in db.devices
  {
    db.(devices := db.devices[id := db.devices[id].(lastSeenAt := Some(now))])
  }

  class DeviceAuthService {
    const session: Session
    const tokens: DeviceTokenService

    constructor (session: Session)
      ensures this.session == session && tokens.session == session
    {
      this.session := session;
      tokens := new DeviceTokenService(session);
    }

    /** Flushes `last_seen_at` on success and leaves the commit to the caller. */
    method Authenticate(hash: string -> string, c: Credentials, now: int)
      returns (r: Result<int, AuthFailure>)
      requires tokens.session == session
      requires SerialsUnique(session.db) && HashesUnique(session.db)
      modifies session
      ensures r == Identify(old(session.db), hash, c)
      ensures session.committed == old(session.committed)
      ensures r.Failure? ==> session.db == old(session.db)
      ensures r.Success? ==> r.value in old(session.db).devices && session.db == Seen(old(session.db), r.value, now)
    {
      if Absent(c.serial) {
        return Failure(MissingSerial);
      }
      if Absent(c.token) {
        return Failure(MissingToken);
      }
      var serial := ParseSerial(c.serial.value);
      if serial.None? {
        return Failure(UnknownDevice);
      }
      var devices := session.db.devices;
      var matching := set id | id in devices && devices[id].serial == serial.value;
      if matching == {} {
        assert forall id :: id in devices && devices[id].serial == serial.value ==> id in matching;
        return Failure(UnknownDevice);
      }
      var id := PickAny(matching);
      if c.mac.Some? && Strip(c.mac.value) != "" {
        var _ := NormalizeMac(Strip(c.mac.value));
      }
      if devices[id].status.Disabled? || devices[id].status.Retired? {
        assert Blocked(session.db, c);
        return Failure(DeviceDisabled);
      }
      var digest := hash(c.token.value);
      var record := tokens.FindActiveByHash(digest);
      assert hash(c.token.value) == digest;
      if record.None? || session.db.tokens[record.value].deviceId != id {
        assert forall t :: Holds(session.db, id, t, digest) ==> record == Some(t);
        return Failure(InvalidToken);
      }
      assert Holds(session.db, id, record.value, hash(c.token.value));
      assert Proves(session.db, hash, c, id);
      session.db := Seen(session.db, id, now);
      return Success(id);
    }
  }

  /** The serial belongs to a device that is neither disabled nor retired. */
  ghost predicate Admitted(db: Db, c: Credentials, id: int) {
    && id in db.devices && c.serial.Some?
    && ParseSerial(c.serial.value) == Some(db.devices[id].serial)
    && (db.devices[id].status.Provisioned? || db.devices[id].status.Active?)
  }

  /** Success means proof, for exactly one device; and the code follows the tables:
      a 403 says nothing about the token, a 401 after the header checks says that
      the serial belongs to an admitted device. */
  lemma IdentifyIsProof(db: Db, hash: string -> string, c: Credentials)
    requires SerialsUnique(db)
    ensures forall id :: Identify(db, hash, c) == Success(id) <==> Proves(db, hash, c, id)
    ensures Identify(db, hash, c) == Failure(InvalidToken) ==>
              exists id :: Admitted(db, c, id)
  {
    forall id | Proves(db, hash, c, id)
      ensures Identify(db, hash, c) == Success(id)
    {
      assert KnownSerial(db, c);
      assert !Blocked(db, c);
    }
    if Identify(db, hash, c) == Failure(InvalidToken) {
      var id :| id in db.devices && db.devices[id].serial == ParseSerial(c.serial.value).value;
      assert Admitted(db, c, id);
    }
  }

  /** A serial header is read iff, trimmed, it is one to nineteen digits of a signed
      64-bit number. */
  lemma SerialIsReadIff(header: string)
    ensures
      var digits := Strip(header);
      && (ParseSerial(header).Some?
          <==> && 1 <= |digits| <= 19 && (forall i :: 0 <= i < |digits| ==> '0' <= digits[i] <= '9')
               && ToNat(digits) <= 9_223_372_036_854_775_807)
      && (ParseSerial(header).Some? ==> ParseSerial(header).value == ToNat(digits))
  {
    assert AllDigits(Strip(header)) <==> forall i :: 0 <= i < |Strip(header)| ==> '0' <= Strip(header)[i] <= '9';
  }

  /** A live token of the device whose digest is that of the secret. */
  ghost predicate LiveToken(db: Db, t: int, id: int, digest: string) {
    && t in db.tokens && db.tokens[t].deviceId == id && db.tokens[t].hash == digest
    && db.tokens[t].isActive && db.tokens[t].revokedAt.None?
  }

  /** Who gets in, column by column: neither header is blank, the serial is the device's,
      which is provisioned or active, and a live token of its own has the digest of the
      secret presented. */
  lemma GetsInIff(db: Db, hash: string -> string, c: Credentials, id: int)
    requires SerialsUnique(db)
    ensures Identify(db, hash, c) == Success(id)
            <==> && c.serial.Some? && c.token.Some? && Strip(c.token.value) != ""
                 && id in db.devices && ParseSerial(c.serial.value) == Some(db.devices[id].serial)
                 && db.devices[id].status in {Provisioned, Active}
                 && exists t :: LiveToken(db, t, id, hash(c.token.value))
  {
    IdentifyIsProof(db, hash, c);
    if c.token.Some? {
      assert forall t :: Holds(db, id, t, hash(c.token.value)) <==> LiveToken(db, t, id, hash(c.token.value));
    }
    if c.serial.Some? {
      SerialIsReadIff(c.serial.value);
    }
  }

  /** A lockout follows the device's registration and never its token: with both
      headers present, 403 means exactly that no admitted device has the serial. */
  lemma LockoutIffNotAdmitted(db: Db, hash: string -> string, c: Credentials)
    requires SerialsUnique(db)
    ensures (Identify(db, hash, c).Failure? && HttpStatus(Identify(db, hash, c).error) == 403)
            <==> !Absent(c.serial) && !Absent(c.token) && !exists id :: Admitted(db, c, id)
  {
    if !Absent(c.serial) && !Absent(c.token) && KnownSerial(db, c) {
      var id :| id in db.devices && db.devices[id].serial == ParseSerial(c.serial.value).value;
      assert Blocked(db, c) <==> !Admitted(db, c, id);
      assert forall other :: Admitted(db, c, other) ==> other == id;
    }
  }

  /** The MAC header never changes the outcome, although the documentation calls it
      part of the device's identity. */
  lemma MacIsNotEnforced(db: Db, hash: string -> string, c: Credentials, mac: Option<string>)
    requires SerialsUnique(db)
    ensures Identify(db, hash, c) == Identify(db, hash, c.(mac := mac))
  {
    var c' := c.(mac := mac);
    assert KnownSerial(db, c) == KnownSerial(db, c') && Blocked(db, c) == Blocked(db, c');
    assert forall id :: Proves(db, hash, c, id) <==> Proves(db, hash, c', id);
    IdentifyIsProof(db, hash, c);
    IdentifyIsProof(db, hash, c');
  }

  /** A revoked token proves nothing any more, whoever presents it. */
  lemma RevokedTokenIsUseless(
    db: Db, hash: string -> string, tokenId: int, deviceId: Option<int>, now: int, c: Credentials)
    requires HashesUnique(db) && RevokeToken(db, tokenId, deviceId, now).Success?
    requires c.token.Some? && hash(c.token.value) == db.tokens[tokenId].hash
    ensures Identify(RevokeToken(db, tokenId, deviceId, now).value, hash, c).Failure?
  {
  }

  /** A rotation replaces one secret by another: afterwards the new secret proves the
      device, if its serial is presented and it is admitted, and the old one proves
      nothing to anybody. */
  lemma RotationReplaces(
    db: Db, hash: string -> string, deviceId: int, tokenId: int, secret: string, now: int, c: Credentials)
    requires SerialsUnique(db) && HashesUnique(db)
    requires (forall id :: id in db.tokens ==> id < db.nextId)
    requires RotateToken(db, deviceId, tokenId, hash(secret), now).Success?
    ensures
      var after := RotateToken(db, deviceId, tokenId, hash(secret), now).value;
      && (c.token == Some(secret) && !Absent(c.token) && !Absent(c.serial) && Admitted(after, c, deviceId) ==>
            Identify(after, hash, c) == Success(deviceId))
      && (c.token.Some? && hash(c.token.value) == db.tokens[tokenId].hash ==> Identify(after, hash, c).Failure?)
  {
    var after := RotateToken(db, deviceId, tokenId, hash(secret), now).value;
    assert after.tokens[tokenId].hash == db.tokens[tokenId].hash != hash(secret);
    assert SerialsUnique(after);
    IdentifyIsProof(after, hash, c);
    if c.token == Some(secret) && !Absent(c.token) && !Absent(c.serial) && Admitted(after, c, deviceId) {
      assert Holds(after, deviceId, db.nextId, hash(c.token.value));
      assert Proves(after, hash, c, deviceId);
    }
    if c.token.Some? && hash(c.token.value) == db.tokens[tokenId].hash {
      forall id
        ensures !Proves(after, hash, c, id)
      {
        forall t
          ensures !Holds(after, id, t, hash(c.token.value))
        {
          if t == tokenId {
            assert after.tokens[t].revokedAt.Some?;
          } else if t != db.nextId && t in db.tokens {
            assert db.tokens[t].hash != db.tokens[tokenId].hash;
          }
        }
      }
    }
  }

  /* ----- expiry ----- */

  ghost predicate Expired(t: Token, now: int) {
    t.expiresAt.Some? && t.expiresAt.value <= now
  }

  function WithExpiry(db: Db, tokenId: int, expiresAt: Option<int>): Db
    requires tokenId in db.tokens
  {
    db.(tokens := db.tokens[tokenId := db.tokens[tokenId].(expiresAt := expiresAt)])
  }

  /** Whatever expiry is written into whichever token, no request is answered
      differently at any time: a token past its expiry still proves its device. */
  lemma ExpiryIsNotTested(
    db: Db, hash: string -> string, c: Credentials, tokenId: int, expiresAt: Option<int>)
    requires SerialsUnique(db) && tokenId in db.tokens
    ensures Identify(WithExpiry(db, tokenId, expiresAt), hash, c) == Identify(db, hash, c)
  {
    var after := WithExpiry(db, tokenId, expiresAt);
    assert KnownSerial(db, c) <==> KnownSerial(after, c);
    assert Blocked(db, c) <==> Blocked(after, c);
    forall id
      ensures Proves(db, hash, c, id) <==> Proves(after, hash, c, id)
    {
      if !Absent(c.token) {
        assert forall t :: Holds(db, id, t, hash(c.token.value)) <==> Holds(after, id, t, hash(c.token.value));
      }
    }
    IdentifyIsProof(db, hash, c);
    IdentifyIsProof(after, hash, c);
  }

  ghost predicate ProvesUnexpired(db: Db, hash: string -> string, c: Credentials, id: int, now: int) {
    c.token.Some? && exists t :: Holds(db, id, t, hash(c.token.value)) && !Expired(db.tokens[t], now)
  }

  /** At `now` nobody gets in on an expired token. */
  ghost predicate ExpiryHonoured(db: Db, hash: string -> string, now: int) {
    forall c, id :: Identify(db, hash, c) == Success(id) ==> ProvesUnexpired(db, hash, c, id, now)
  }

  ghost predicate UsableByAdmitted(db: Db, tokenId: int) {
    && tokenId in db.tokens && db.tokens[tokenId].isActive && db.tokens[tokenId].revokedAt.None?
    && db.tokens[tokenId].deviceId in db.devices
    && var status := db.devices[db.tokens[tokenId].deviceId].status;
       status.Provisioned? || status.Active?
  }

  /** What issuing and registration guarantee: a digest is of some secret that is not
      blank, and serials are 64-bit. */
  ghost predicate Presentable(db: Db, hash: string -> string) {
    && (forall t :: t in db.tokens ==> exists secret :: Strip(secret) != "" && hash(secret) == db.tokens[t].hash)
    && (forall id :: id in db.devices ==> 0 <= db.devices[id].serial <= MAX_SERIAL)
  }

  lemma SerialReadsBack(serial: nat)
    requires serial <= MAX_SERIAL
    ensures ParseSerial(Render(serial)) == Some(serial) && Strip(Render(serial)) != ""
  {
    var text := Render(serial);
    assert !IsSpace(text[0]) && !IsSpace(text[|text| - 1]);
    assert Strip(text) == text;
    NineteenDigits();
    RenderLength(serial, 19);
  }

  lemma NineteenDigits()
    ensures MAX_SERIAL < Pow10(19)
  {
    assert Pow10(4) == 10_000;
    assert Pow10(8) == 10_000 * Pow10(4);
    assert Pow10(12) == 10_000 * Pow10(8);
    assert Pow10(16) == 10_000 * Pow10(12);
    assert Pow10(19) == 1000 * Pow10(16);
  }

  /** So expiry is honoured at `now` exactly when no usable token of an admitted device
      has expired by then. */
  lemma ExpiryHonouredIff(db: Db, hash: string -> string, now: int)
    requires SerialsUnique(db) && HashesUnique(db) && Presentable(db, hash)
    ensures ExpiryHonoured(db, hash, now)
            <==> forall t :: UsableByAdmitted(db, t) ==> !Expired(db.tokens[t], now)
  {
    if forall t :: UsableByAdmitted(db, t) ==> !Expired(db.tokens[t], now) {
      forall c, id | Identify(db, hash, c) == Success(id)
        ensures ProvesUnexpired(db, hash, c, id, now)
      {
        IdentifyIsProof(db, hash, c);
        var t :| Holds(db, id, t, hash(c.token.value));
        assert UsableByAdmitted(db, t);
      }
    }
    if ExpiryHonoured(db, hash, now) {
      forall t | UsableByAdmitted(db, t)
        ensures !Expired(db.tokens[t], now)
      {
        var c, id := OwnerGetsIn(db, hash, t);
        var other :| Holds(db, id, other, hash(c.token.value)) && !Expired(db.tokens[other], now);
        assert other == t;
      }
    }
  }

  /** Whoever holds the secret of such a token gets in with it. */
  lemma OwnerGetsIn(db: Db, hash: string -> string, tokenId: int) returns (c: Credentials, id: int)
    requires SerialsUnique(db) && Presentable(db, hash) && UsableByAdmitted(db, tokenId)
    ensures Identify(db, hash, c) == Success(id)
    ensures c.token.Some? && hash(c.token.value) == db.tokens[tokenId].hash
  {
    id := db.tokens[tokenId].deviceId;
    var secret :| Strip(secret) != "" && hash(secret) == db.tokens[tokenId].hash;
    c := Credentials(Some(Render(db.devices[id].serial)), None, Some(secret));
    SerialReadsBack(db.devices[id].serial);
    assert Holds(db, id, tokenId, hash(c.token.value));
    assert Proves(db, hash, c, id);
    IdentifyIsProof(db, hash, c);
  }

  /* ----- the documented MAC rule ----- */

  /** The header, if the request carries one, is the device's registered address. */
  ghost predicate MacMatches(d: Device, c: Credentials) {
    !Absent(c.mac) ==> d.mac.Some? && NormalizeMac(Strip(c.mac.value)) == Success(d.mac.value)
  }

  /** The rule of the documentation: nobody gets in with another address. */
  ghost predicate MacHonoured(db: Db, hash: string -> string) {
    forall c, id :: Identify(db, hash, c) == Success(id) ==> id in db.devices && MacMatches(db.devices[id], c)
  }

  const MISMATCHED_MAC := "x"

  /** Whoever gets in also gets in with a header that is no address at all, and so
      matches no device. */
  lemma MismatchedMacGetsIn(db: Db, hash: string -> string, c: Credentials, id: int)
    requires SerialsUnique(db) && Identify(db, hash, c) == Success(id)
    ensures Identify(db, hash, c.(mac := Some(MISMATCHED_MAC))) == Success(id)
    ensures id in db.devices && !MacMatches(db.devices[id], c.(mac := Some(MISMATCHED_MAC)))
  {
    MacIsNotEnforced(db, hash, c, Some(MISMATCHED_MAC));
    IdentifyIsProof(db, hash, c);
    assert Strip(MISMATCHED_MAC) == MISMATCHED_MAC;
    assert |Cleaned(MISMATCHED_MAC)| < 12 by {
      CleanedIsShorter(MISMATCHED_MAC);
    }
  }

  /** So the rule is met exactly while nobody can get in at all: no admitted device
      has a usable token. */
  lemma MacHonouredIff(db: Db, hash: string -> string)
    requires SerialsUnique(db) && HashesUnique(db) && Presentable(db, hash)
    ensures MacHonoured(db, hash) <==> forall t :: !UsableByAdmitted(db, t)
  {
    if t :| UsableByAdmitted(db, t) {
      var c, id := OwnerGetsIn(db, hash, t);
      MismatchedMacGetsIn(db, hash, c, id);
    } else {
      forall c, id | Identify(db, hash, c) == Success(id)
        ensures exists t :: UsableByAdmitted(db, t)
      {
        InsiderHasToken(db, hash, c, id);
      }
    }
  }

  lemma InsiderHasToken(db: Db, hash: string -> string, c: Credentials, id: int)
    requires SerialsUnique(db) && Identify(db, hash, c) == Success(id)
    ensures exists t :: UsableByAdmitted(db, t)
  {
    IdentifyIsProof(db, hash, c);
    var t :| Holds(db, id, t, hash(c.token.value));
    assert UsableByAdmitted(db, t);
  }
}
