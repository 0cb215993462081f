/** Which release a device is offered, and whether it may have the bytes
    (app/services/update_decision.py). */
module UpdateDecisions {
  import opened Wrappers
  import opened Tables
  import opened Version
  import opened PolicyRules
  import opened Policies

  datatype UpdateReason =
    | LatestAvailable | PinnedVersion | VersionRange
    | DeviceTypeMismatch | DeviceInactive | OtaDisabled
    | NoEligibleRelease | PolicyBlocked | NoUpdate

  datatype Decision = Decision(
    available: bool,
    reason: UpdateReason,
    knownVersion: Option<string>,
    release: Option<Release>,
    policyId: Option<int>,
    policyScope: Option<PolicyScope>)

  /* ----- the two gates, as the code has them ----- */

  /** The entitlement boundary both endpoints share; `None` lets the device pass. */
  function CheckEligibility(db: Db, device: Device, code: string, platform: string): Option<UpdateReason> {
    if device.typeId !in db.types then Some(NoEligibleRelease)
    else if code != db.types[device.typeId].code || platform != db.types[device.typeId].platform
    then Some(DeviceTypeMismatch)
    else if !device.status.Active? then Some(DeviceInactive)
    else if !device.otaEnabled then Some(OtaDisabled)
    else None
  }

  /** An asserted version that does not parse counts as unknown. */
  function KnownVersion(device: Device): (known: Option<string>)
    ensures known.Some? ==> IsValidVersion(known.value)
  {
    if device.currentVersion.Some? && IsValidVersion(device.currentVersion.value)
    then device.currentVersion else None
  }

  ghost predicate PolicyUsable(p: Option<Policy>) {
    p.Some? ==> WellFormed(p.value.def)
  }

  /** The offer gate's restriction of the published candidates. */
  function Narrow(published: seq<Release>, p: Option<Policy>): seq<Release>
    requires PolicyUsable(p)
    requires forall r :: r in published ==> IsValidVersion(r.version)
  {
    if p.None? then published
    else
      match p.value.def.policyType
      case Pin => Filter(published, (r: Release) => Some(r.version) == p.value.def.targetVersion)
      case Range => NarrowRange(published, p.value.def.minVersion, p.value.def.maxVersion)
      case Disable => []
  }

  function NarrowRange(published: seq<Release>, minVersion: Option<string>, maxVersion: Option<string>): seq<Release>
    requires OptionalVersionOk(minVersion) && OptionalVersionOk(maxVersion)
    requires forall r :: r in published ==> IsValidVersion(r.version)
  {
    if published == [] then []
    else
      var rest := NarrowRange(published[1..], minVersion, maxVersion);
      if VersionInRange(published[0].version, minVersion, maxVersion) then [published[0]] + rest else rest
  }

  /** Python's `max`: the first of the greatest. */
  function MaxByVersion(candidates: seq<Release>): (best: Release)
    requires candidates != []
    requires forall r :: r in candidates ==> IsValidVersion(r.version)
    ensures best in candidates
    ensures forall r :: r in candidates ==> !Key(best.version).Less(Key(r.version))
  {
    if |candidates| == 1 then candidates[0]
    else
      var rest := MaxByVersion(candidates[1..]);
      assert candidates == [candidates[0]] + candidates[1..];
      if Key(candidates[0].version).Less(Key(rest.version)) then rest else candidates[0]
  }

  function ReasonFor(p: Option<Policy>): UpdateReason {
    if p.None? then LatestAvailable
    else if p.value.def.policyType.Pin? then PinnedVersion
    else VersionRange
  }

  /** The delivery gate's policy test, coded separately from `Narrow`. */
  ghost function AllowsDelivery(db: Db, deviceId: int, typeId: int, r: Release, now: int): bool
    requires PoliciesSound(db) && IsValidVersion(r.version)
  {
    ResolvedPolicyIsSound(db, deviceId, typeId, now);
    var resolution := Resolve(db.policies, deviceId, typeId, now);
    if resolution.conflict then false
    else if resolution.policy.None? then true
    else
      var d := resolution.policy.value.def;
      if d.policyType.Disable? then false
      else if d.policyType.Pin? then Some(r.version) == d.targetVersion
      else VersionInRange(r.version, d.minVersion, d.maxVersion)
  }

  /* ----- what a decision means ----- */

  /** A release the device type publishes and the device could compare. */
  ghost predicate IsPublished(db: Db, typeId: int, r: Release) {
    && r.id in db.releases && db.releases[r.id] == r
    && r.typeId == typeId && r.status.Published? && IsValidVersion(r.version)
  }

  /** A policy leaves the release a candidate. */
  ghost predicate Permits(p: Option<Policy>, r: Release)
    requires PolicyUsable(p) && IsValidVersion(r.version)
  {
    p.Some? ==>
      var d := p.value.def;
      match d.policyType
      case Pin => d.targetVersion == Some(r.version)
      case Range =>
        && (d.minVersion.Some? ==> Key(d.minVersion.value).AtMost(Key(r.version)))
        && (d.maxVersion.Some? ==> Key(r.version).AtMost(Key(d.maxVersion.value)))
      case Disable => false
  }

  ghost predicate IsCandidate(db: Db, typeId: int, p: Option<Policy>, r: Release)
    requires PolicyUsable(p)
  {
    IsPublished(db, typeId, r) && Permits(p, r)
  }

  /** A candidate no other candidate is newer than. */
  ghost predicate IsBest(db: Db, typeId: int, p: Option<Policy>, r: Release)
    requires PolicyUsable(p)
  {
    && IsCandidate(db, typeId, p, r)
    && forall q :: IsCandidate(db, typeId, p, q) ==> !Key(r.version).Less(Key(q.version))
  }

  ghost predicate NothingNewer(known: Option<string>, r: Release)
    requires known.Some? ==> IsValidVersion(known.value)
    requires IsValidVersion(r.version)
  {
    known.Some? && !Key(known.value).Less(Key(r.version))
  }

  /** The documented rule. Where two published versions are spelled differently but
      are numerically equal, either may be the one selected. */
  ghost predicate Decides(db: Db, deviceId: int, code: string, platform: string, now: int, d: Decision)
    requires deviceId in db.devices && PoliciesSound(db)
  {
    var device := db.devices[deviceId];
    var resolution := Resolve(db.policies, deviceId, device.typeId, now);
    ResolvedPolicyIsSound(db, deviceId, device.typeId, now);
    var p := resolution.policy;
    && d.knownVersion == KnownVersion(device)
    && if CheckEligibility(db, device, code, platform).Some? then
         d == Decision(false, CheckEligibility(db, device, code, platform).value, d.knownVersion, None, None, None)
       else if resolution.conflict then
         d == Decision(false, PolicyBlocked, d.knownVersion, None, None, resolution.scope)
       else if p.Some? && p.value.def.policyType.Disable? then
         d == Decision(false, OtaDisabled, d.knownVersion, None, Some(p.value.id), Some(p.value.def.scope))
       else if d.release.None? then
         && (forall r :: !IsCandidate(db, device.typeId, p, r))
         && !d.available
         && d.reason == (if p.Some? && exists r :: IsPublished(db, device.typeId, r)
                         then PolicyBlocked else NoEligibleRelease)
         && d.policyId == PolicyId(p) && d.policyScope == resolution.scope
       else
         && IsBest(db, device.typeId, p, d.release.value)
         && d.available == !NothingNewer(d.knownVersion, d.release.value)
         && d.reason == (if d.available then ReasonFor(p) else NoUpdate)
         && d.policyId == PolicyId(p) && d.policyScope == resolution.scope
  }

  function PolicyId(p: Option<Policy>): Option<int> {
    if p.Some? then Some(p.value.id) else None
  }

  /* ----- the service ----- */

  lemma NarrowKeepsPermitted(published: seq<Release>, p: Option<Policy>)
    requires PolicyUsable(p)
    requires forall r :: r in published ==> IsValidVersion(r.version)
    ensures forall r :: r in Narrow(published, p) <==> r in published && Permits(p, r)
  {
    if p.Some? {
      match p.value.def.policyType
      case Pin => FilterMembers(published, (r: Release) => Some(r.version) == p.value.def.targetVersion);
      case Range => NarrowRangeMembers(published, p.value.def.minVersion, p.value.def.maxVersion);
      case Disable =>
    }
  }

  lemma {:induction false} NarrowRangeMembers(
    published: seq<Release>, minVersion: Option<string>, maxVersion: Option<string>)
    requires OptionalVersionOk(minVersion) && OptionalVersionOk(maxVersion)
    requires forall r :: r in published ==> IsValidVersion(r.version)
    ensures forall r :: r in NarrowRange(published, minVersion, maxVersion)
                        <==> r in published && VersionInRange(r.version, minVersion, maxVersion)
  {
    if published != [] {
      NarrowRangeMembers(published[1..], minVersion, maxVersion);
      assert published == [published[0]] + published[1..];
    }
  }

  class UpdateDecisionService {
    const session: Session
    const policies: PolicyService

    constructor (session: Session)
      ensures this.session == session && policies.session == session
    {
      this.session := session;
      policies := new PolicyService(session);
    }

    /** The rows of one type that are published, without those whose version does
        not parse. */
    method PublishedReleases(typeId: int) returns (usable: seq<Release>)
      requires forall id :: id in session.db.releases ==> session.db.releases[id].id == id
      ensures forall r :: r in usable <==> IsPublished(session.db, typeId, r)
    {
      var releases := session.db.releases;
      var rows := set id | id in releases && releases[id].typeId == typeId && releases[id].status.Published?;
      var pending := rows;
      usable := [];
      while pending != {}
        invariant pending <= rows
        invariant forall r :: r in usable <==>
                    r.id in rows && r.id !in pending && releases[r.id] == r && IsValidVersion(r.version)
        decreases pending
      {
        var id := PickAny(pending);
        pending := pending - {id};
        if ParseVersion(releases[id].version).Some? {
          usable := usable + [releases[id]];
        }
      }
    }

    method Decide(deviceId: int, code: string, platform: string, now: int) returns (d: Decision)
      requires policies.session == session
      requires deviceId in session.db.devices && PoliciesSound(session.db)
      requires forall id :: id in session.db.releases ==> session.db.releases[id].id == id
      ensures Decides(session.db, deviceId, code, platform, now, d)
    {
      var device := session.db.devices[deviceId];
      var known := KnownVersion(device);
      var refusal := CheckEligibility(session.db, device, code, platform);
      if refusal.Some? {
        return Decision(false, refusal.value, known, None, None, None);
      }
      var resolution := policies.ResolveForDevice(deviceId, device.typeId, now);
      ResolvedPolicyIsSound(session.db, deviceId, device.typeId, now);
      if resolution.conflict {
        return Decision(false, PolicyBlocked, known, None, None, resolution.scope);
      }
      var p := resolution.policy;
      if p.Some? && p.value.def.policyType.Disable? {
        return Decision(false, OtaDisabled, known, None, Some(p.value.id), Some(p.value.def.scope));
      }
      var published := PublishedReleases(device.typeId);
      var candidates := Narrow(published, p);
      NarrowKeepsPermitted(published, p);
      if candidates == [] {
        var blocked := published != [] && p.Some?;
        assert published != [] ==> IsPublished(session.db, device.typeId, published[0]);
        assert forall r :: IsCandidate(session.db, device.typeId, p, r) ==> r in candidates;
        return Decision(false, if blocked then PolicyBlocked else NoEligibleRelease, known, None,
                        PolicyId(p), resolution.scope);
      }
      var release := MaxByVersion(candidates);
      assert IsBest(session.db, device.typeId, p, release);
      if known.Some? && !Key(known.value).Less(Key(release.version)) {
        return Decision(false, NoUpdate, known, Some(release), PolicyId(p), resolution.scope);
      }
      return Decision(true, ReasonFor(p), known, Some(release), PolicyId(p), resolution.scope);
    }

    method DeliveryAllowed(deviceId: int, typeId: int, r: Release, now: int) returns (allowed: bool)
      requires policies.session == session
      requires PoliciesSound(session.db) && IsValidVersion(r.version)
      ensures PolicyUsable(Resolve(session.db.policies, deviceId, typeId, now).policy)
      ensures allowed <==> Permits(Resolve(session.db.policies, deviceId, typeId, now).policy, r)
      ensures allowed == AllowsDelivery(session.db, deviceId, typeId, r, now)
    {
      AllowsIffPermits(session.db, deviceId, typeId, r, now);
      var resolution := policies.ResolveForDevice(deviceId, typeId, now);
      ResolvedPolicyIsSound(session.db, deviceId, typeId, now);
      if resolution.conflict {
        return false;
      }
      if resolution.policy.None? {
        return true;
      }
      var d := resolution.policy.value.def;
      if d.policyType.Disable? {
        return false;
      }
      if d.policyType.Pin? {
        return Some(r.version) == d.targetVersion;
      }
      return VersionInRange(r.version, d.minVersion, d.maxVersion);
    }
  }

  /* ----- the gates agree ----- */

  lemma AllowsIffPermits(db: Db, deviceId: int, typeId: int, r: Release, now: int)
    requires PoliciesSound(db) && IsValidVersion(r.version)
    ensures PolicyUsable(Resolve(db.policies, deviceId, typeId, now).policy)
    ensures AllowsDelivery(db, deviceId, typeId, r, now)
            <==> Permits(Resolve(db.policies, deviceId, typeId, now).policy, r)
  {
    ResolvedPolicyIsSound(db, deviceId, typeId, now);
    ResolveNeverConflicts(db, deviceId, typeId, now);
  }

  /** The two gates agree on every published release: it survives the narrowing of
      the offer exactly when its bytes may be delivered. */
  lemma GatesAgree(db: Db, deviceId: int, typeId: int, published: seq<Release>, r: Release, now: int)
    requires PoliciesSound(db) && r in published
    requires forall q :: q in published ==> IsValidVersion(q.version)
    ensures PolicyUsable(Resolve(db.policies, deviceId, typeId, now).policy)
    ensures r in Narrow(published, Resolve(db.policies, deviceId, typeId, now).policy)
            <==> AllowsDelivery(db, deviceId, typeId, r, now)
  {
    AllowsIffPermits(db, deviceId, typeId, r, now);
    NarrowKeepsPermitted(published, Resolve(db.policies, deviceId, typeId, now).policy);
  }

  /** An offer is of a published release of the device's own type, strictly newer
      than the version the server knows, permitted by the governing policy, and to
      an active device with its own flag set; and its bytes may be delivered. */
  lemma OfferIsEntitled(db: Db, deviceId: int, code: string, platform: string, now: int, d: Decision)
    requires deviceId in db.devices && PoliciesSound(db)
    requires Decides(db, deviceId, code, platform, now, d) && d.available
    ensures
      var device := db.devices[deviceId];
      && d.release.Some? && IsPublished(db, device.typeId, d.release.value)
      && device.status.Active? && device.otaEnabled
      && CheckEligibility(db, device, code, platform).None?
      && AllowsDelivery(db, deviceId, device.typeId, d.release.value, now)
      && (KnownVersion(device).Some? ==>
            Key(KnownVersion(device).value).Less(Key(d.release.value.version)))
  {
    var device := db.devices[deviceId];
    ResolvedPolicyIsSound(db, deviceId, device.typeId, now);
    AllowsIffPermits(db, deviceId, device.typeId, d.release.value, now);
  }

  /** Every decision is explained by exactly one rule, so any two decisions of one
      state agree in everything but the spelling of the selected version. */
  lemma DecisionIsDetermined(
    db: Db, deviceId: int, code: string, platform: string, now: int, d: Decision, e: Decision)
    requires deviceId in db.devices && PoliciesSound(db)
    requires Decides(db, deviceId, code, platform, now, d) && Decides(db, deviceId, code, platform, now, e)
    ensures d.available == e.available && d.reason == e.reason && d.policyId == e.policyId
    ensures d.release.Some? == e.release.Some?
    ensures d.release.Some? ==>
              IsValidVersion(d.release.value.version) && IsValidVersion(e.release.value.version)
              && Key(d.release.value.version) == Key(e.release.value.version)
  {
  }

  /** Once the device is known to run the offered version or a later one, the same
      tables and policy answer that there is no update. */
  lemma InstalledMeansNoUpdate(
    db: Db, next: Db, deviceId: int, code: string, platform: string, now: int, later: int,
    d: Decision, e: Decision)
    requires deviceId in db.devices && PoliciesSound(db) && PoliciesSound(next)
    requires next.policies == db.policies && next.releases == db.releases && next.types == db.types
    requires deviceId in next.devices
    requires Decides(db, deviceId, code, platform, now, d) && d.available
    requires d.release.Some?
    requires KnownVersion(next.devices[deviceId]).Some? && IsValidVersion(d.release.value.version)
    requires Key(d.release.value.version).AtMost(Key(KnownVersion(next.devices[deviceId]).value))
    requires next.devices[deviceId].typeId == db.devices[deviceId].typeId
    requires next.devices[deviceId].status == db.devices[deviceId].status
    requires next.devices[deviceId].otaEnabled == db.devices[deviceId].otaEnabled
    requires Resolve(next.policies, deviceId, next.devices[deviceId].typeId, later)
             == Resolve(db.policies, deviceId, db.devices[deviceId].typeId, now)
    requires Decides(next, deviceId, code, platform, later, e)
    ensures !e.available && e.reason == NoUpdate
  {
    var typeId := db.devices[deviceId].typeId;
    ResolvedPolicyIsSound(db, deviceId, typeId, now);
    var p := Resolve(db.policies, deviceId, typeId, now).policy;
    assert forall r :: IsPublished(db, typeId, r) <==> IsPublished(next, typeId, r);
    assert forall r :: IsCandidate(db, typeId, p, r) <==> IsCandidate(next, typeId, p, r);
    assert IsCandidate(next, typeId, p, d.release.value);
    BestIsNotNewer(next, typeId, p, d.release.value, KnownVersion(next.devices[deviceId]).value);
  }

  /** If the best candidate of before is still the best, nothing on offer is newer than
      a version that is not below it. */
  lemma BestIsNotNewer(db: Db, typeId: int, p: Option<Policy>, best: Release, known: string)
    requires PolicyUsable(p) && IsBest(db, typeId, p, best) && IsValidVersion(known)
    requires Key(best.version).AtMost(Key(known))
    ensures forall r :: IsCandidate(db, typeId, p, r) ==> !Key(known).Less(Key(r.version))
    ensures exists r :: IsCandidate(db, typeId, p, r)
  {
    forall r | IsCandidate(db, typeId, p, r)
      ensures !Key(known).Less(Key(r.version))
    {
      LessIsStrictTotal(Key(best.version), Key(known), Key(r.version));
    }
  }
}
