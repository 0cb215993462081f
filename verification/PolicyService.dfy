/** Policy administration and resolution against the table
    (app/services/policies.py; commits and rollbacks from app/api/v1/policies.py). */
module Policies {
  import opened Wrappers
  import opened Tables
  import opened PolicyRules

  /* ----- what each call does to the tables ----- */

  /** A policy pointing at nothing is refused. */
  function TargetError(db: Db, d: Definition): Option<Code>
    requires d.scope.DeviceTypeScope? ==> d.deviceTypeId.Some?
    requires d.scope.DeviceScope? ==> d.deviceId.Some?
  {
    if d.scope.DeviceTypeScope? && d.deviceTypeId.value !in db.types then Some(DeviceTypeNotFound)
    else if d.scope.DeviceScope? && d.deviceId.value !in db.devices then Some(DeviceNotFound)
    else None
  }

  function DefinitionError(db: Db, d: Definition): Option<Code> {
    if ValidatePolicyDefinition(d).Some? then ValidatePolicyDefinition(d) else TargetError(db, d)
  }

  predicate SameTarget(d: Definition, e: Definition) {
    && d.scope == e.scope
    && (d.scope.DeviceTypeScope? ==> d.deviceTypeId == e.deviceTypeId)
    && (d.scope.DeviceScope? ==> d.deviceId == e.deviceId)
  }

  /** `q` is an active policy with the same target and priority as the candidate
      and an overlapping window. */
  predicate Clashes(d: Definition, priority: int, q: Policy) {
    && q.isActive
    && SameTarget(d, q.def)
    && q.priority == priority
    && WindowsOverlap(d.window, q.def.window)
  }

  ghost predicate NoConflict(policies: map<int, Policy>, d: Definition, priority: int, exclude: Option<int>) {
    forall id :: id in policies && exclude != Some(id) ==> !Clashes(d, priority, policies[id])
  }

  ghost function CreatePolicy(db: Db, d: Definition, priority: int): Result<Db, Code> {
    if DefinitionError(db, d).Some? then Failure(DefinitionError(db, d).value)
    else if !NoConflict(db.policies, d, priority, None) then Failure(PolicyConflict)
    else
      var row := Policy(db.nextId, d, priority, true, None);
      Success(db.(policies := db.policies[db.nextId := row], nextId := db.nextId + 1))
  }

  /** A partial edit. `None` leaves a field alone; `touchesImmutable` says that the
      request names the scope, the type or a target. */
  datatype Changes = Changes(
    touchesImmutable: bool,
    targetVersion: Option<Option<string>>,
    minVersion: Option<Option<string>>,
    maxVersion: Option<Option<string>>,
    startsAt: Option<Option<int>>,
    endsAt: Option<Option<int>>,
    priority: Option<int>)

  function Pick<T>(change: Option<T>, current: T): T {
    if change.Some? then change.value else current
  }

  function Edited(p: Policy, c: Changes): Policy {
    var window := Window(Pick(c.startsAt, p.def.window.startsAt), Pick(c.endsAt, p.def.window.endsAt));
    p.(def := p.def.(targetVersion := Pick(c.targetVersion, p.def.targetVersion),
                     minVersion := Pick(c.minVersion, p.def.minVersion),
                     maxVersion := Pick(c.maxVersion, p.def.maxVersion),
                     window := window),
       priority := Pick(c.priority, p.priority))
  }

  ghost function UpdatePolicy(db: Db, id: int, c: Changes): Result<Db, Code> {
    if id !in db.policies then Failure(PolicyNotFound)
    else if db.policies[id].archivedAt.Some? then Failure(PolicyArchived)
    else if c.touchesImmutable then Failure(PolicyImmutable)
    else
      var row := Edited(db.policies[id], c);
      if DefinitionError(db, row.def).Some? then Failure(DefinitionError(db, row.def).value)
      else if !NoConflict(db.policies, row.def, row.priority, Some(id)) then Failure(PolicyConflict)
      else Success(db.(policies := db.policies[id := row]))
  }

  ghost function SetPolicyActive(db: Db, id: int, isActive: bool): Result<Db, Code> {
    if id !in db.policies then Failure(PolicyNotFound)
    else
      var p := db.policies[id];
      if p.archivedAt.Some? then Failure(PolicyArchived)
      else if isActive && !NoConflict(db.policies, p.def, p.priority, Some(id)) then Failure(PolicyConflict)
      else Success(db.(policies := db.policies[id := p.(isActive := isActive)]))
  }

  function ArchivePolicy(db: Db, id: int, now: int): Result<Db, Code> {
    if id !in db.policies then Failure(PolicyNotFound)
    else
      var p := db.policies[id];
      if p.archivedAt.Some? then Success(db)
      else Success(db.(policies := db.policies[id := p.(isActive := false, archivedAt := Some(now))]))
  }

  function RestorePolicy(db: Db, id: int): Result<Db, Code> {
    if id !in db.policies then Failure(PolicyNotFound)
    else
      var p := db.policies[id];
      if p.archivedAt.None? then Failure(PolicyNotArchived)
      else Success(db.(policies := db.policies[id := p.(isActive := false, archivedAt := None)]))
  }

  /* ----- which rows reach a device ----- */

  predicate Reaches(p: Policy, deviceId: int, typeId: int) {
    && p.isActive
    && p.archivedAt.None?
    && (|| p.def.scope.GlobalScope?
        || (p.def.scope.DeviceTypeScope? && p.def.deviceTypeId == Some(typeId))
        || (p.def.scope.DeviceScope? && p.def.deviceId == Some(deviceId)))
  }

  function Applicable(policies: map<int, Policy>, deviceId: int, typeId: int): set<Policy> {
    set id | id in policies && Reaches(policies[id], deviceId, typeId) :: policies[id]
  }

  /** The rows of a query, in some order. */
  ghost function Rows(s: set<Policy>): (rows: seq<Policy>)
    ensures multiset(rows) == multiset(s)
  {
    if s == {} then []
    else
      var p :| p in s;
      assert s == {p} + (s - {p});
      [p] + Rows(s - {p})
  }

  /** The governing policy of a device; `ResolveIgnoresOrder` makes the order of the
      rows irrelevant. */
  ghost function Resolve(policies: map<int, Policy>, deviceId: int, typeId: int, now: int): Resolution {
    ResolvePolicies(Rows(Applicable(policies, deviceId, typeId)), now)
  }

  /* ----- the service ----- */

  class PolicyService {
    const session: Session

    constructor (session: Session)
      ensures this.session == session
    {
      this.session := session;
    }

    method Create(d: Definition, priority: int) returns (error: Option<Code>)
      requires session.Clean()
      modifies session
      ensures session.Clean()
      ensures Settles(old(session.db), session.db, CreatePolicy(old(session.db), d, priority), error)
    {
      error := DefinitionError(session.db, d);
      if error.Some? {
        session.Rollback();
        return;
      }
      var free := AssertNoConflict(d, priority, None);
      if !free {
        session.Rollback();
        return Some(PolicyConflict);
      }
      var id := session.db.nextId;
      var row := Policy(id, d, priority, true, None);
      session.db := session.db.(policies := session.db.policies[id := row], nextId := id + 1);
      session.Commit();
    }

    /** The row is edited before it is judged; a refusal rolls the edit back. */
    method Update(id: int, c: Changes) returns (error: Option<Code>)
      requires session.Clean()
      modifies session
      ensures session.Clean()
      ensures Settles(old(session.db), session.db, UpdatePolicy(old(session.db), id, c), error)
    {
      if id !in session.db.policies {
        return Some(PolicyNotFound);
      }
      if session.db.policies[id].archivedAt.Some? {
        return Some(PolicyArchived);
      }
      if c.touchesImmutable {
        return Some(PolicyImmutable);
      }
      var row := session.db.policies[id];
      row := row.(priority := Pick(c.priority, row.priority));
      row := row.(def := row.def.(targetVersion := Pick(c.targetVersion, row.def.targetVersion)));
      row := row.(def := row.def.(minVersion := Pick(c.minVersion, row.def.minVersion)));
      row := row.(def := row.def.(maxVersion := Pick(c.maxVersion, row.def.maxVersion)));
      var window := row.def.window;
      window := window.(startsAt := Pick(c.startsAt, window.startsAt));
      window := window.(endsAt := Pick(c.endsAt, window.endsAt));
      row := row.(def := row.def.(window := window));
      session.db := session.db.(policies := session.db.policies[id := row]);

      error := DefinitionError(session.db, row.def);
      if error.Some? {
        session.Rollback();
        return;
      }
      var free := AssertNoConflict(row.def, row.priority, Some(id));
      if !free {
        session.Rollback();
        return Some(PolicyConflict);
      }
      session.Commit();
    }

    method SetActive(id: int, isActive: bool) returns (error: Option<Code>)
      requires session.Clean()
      modifies session
      ensures session.Clean()
      ensures Settles(old(session.db), session.db, SetPolicyActive(old(session.db), id, isActive), error)
    {
      if id !in session.db.policies {
        return Some(PolicyNotFound);
      }
      var p := session.db.policies[id];
      if p.archivedAt.Some? {
        return Some(PolicyArchived);
      }
      if isActive {
        var free := AssertNoConflict(p.def, p.priority, Some(id));
        if !free {
          return Some(PolicyConflict);
        }
      }
      session.db := session.db.(policies := session.db.policies[id := p.(isActive := isActive)]);
      session.Commit();
      error := None;
    }

    method Archive(id: int, now: int) returns (error: Option<Code>)
      requires session.Clean()
      modifies session
      ensures session.Clean()
      ensures Settles(old(session.db), session.db, ArchivePolicy(old(session.db), id, now), error)
    {
      if id !in session.db.policies {
        return Some(PolicyNotFound);
      }
      var p := session.db.policies[id];
      if p.archivedAt.Some? {
        return None;
      }
      p := p.(isActive := false);
      p := p.(archivedAt := Some(now));
      session.db := session.db.(policies := session.db.policies[id := p]);
      session.Commit();
      error := None;
    }

    method Restore(id: int) returns (error: Option<Code>)
      requires session.Clean()
      modifies session
      ensures session.Clean()
      ensures Settles(old(session.db), session.db, RestorePolicy(old(session.db), id), error)
    {
      if id !in session.db.policies {
        return Some(PolicyNotFound);
      }
      var p := session.db.policies[id];
      if p.archivedAt.None? {
        return Some(PolicyNotArchived);
      }
      p := p.(archivedAt := None);
      p := p.(isActive := false);
      session.db := session.db.(policies := session.db.policies[id := p]);
      session.Commit();
      error := None;
    }

    /** The loop over the rows with the same target and priority. */
    method AssertNoConflict(d: Definition, priority: int, exclude: Option<int>) returns (free: bool)
      ensures free <==> NoConflict(session.db.policies, d, priority, exclude)
    {
      var policies := session.db.policies;
      var selected := set id | id in policies && policies[id].isActive
                               && SameTarget(d, policies[id].def)
                               && policies[id].priority == priority
                               && exclude != Some(id);
      var pending := selected;
      while pending != {}
        invariant pending <= selected
        invariant forall id :: id in selected && id !in pending ==> !Clashes(d, priority, policies[id])
        decreases pending
      {
        var other := PickAny(pending);
        if WindowsOverlap(d.window, policies[other].def.window) {
          return false;
        }
        pending := pending - {other};
      }
      free := true;
    }

    method ResolveForDevice(deviceId: int, typeId: int, now: int) returns (r: Resolution)
      ensures r == Resolve(session.db.policies, deviceId, typeId, now)
    {
      var applicable := Applicable(session.db.policies, deviceId, typeId);
      var rows := [];
      var pending := applicable;
      while pending != {}
        invariant pending <= applicable
        invariant multiset(rows) + multiset(pending) == multiset(applicable)
        decreases pending
      {
        var p := PickAny(pending);
        assert multiset(pending) == multiset(pending - {p}) + multiset{p};
        rows := rows + [p];
        pending := pending - {p};
      }
      ResolveIgnoresOrder(rows, Rows(applicable), now);
      r := ResolvePolicies(rows, now);
    }
  }

  /* ----- the table invariant ----- */

  ghost predicate RowsSound(policies: map<int, Policy>, nextId: int) {
    forall id :: id in policies ==>
      && policies[id].id == id < nextId
      && WellFormed(policies[id].def)
      && (policies[id].archivedAt.Some? ==> !policies[id].isActive)
  }

  /** No two active policies tie: equal target and priority exclude an overlap. */
  ghost predicate NoTies(policies: map<int, Policy>) {
    forall i, j :: i in policies && j in policies && i != j && policies[i].isActive ==>
      !Clashes(policies[i].def, policies[i].priority, policies[j])
  }

  ghost predicate PoliciesSound(db: Db) {
    RowsSound(db.policies, db.nextId) && NoTies(db.policies)
  }

  lemma ClashIsSymmetric(p: Policy, q: Policy)
    requires p.isActive && q.isActive
    ensures Clashes(p.def, p.priority, q) <==> Clashes(q.def, q.priority, p)
  {
  }

  /** Writing one row that clashes with no other keeps the invariant. */
  lemma WriteKeepsSound(db: Db, id: int, row: Policy, nextId: int)
    requires PoliciesSound(db) && db.nextId <= nextId && row.id == id < nextId
    requires WellFormed(row.def) && (row.archivedAt.Some? ==> !row.isActive)
    requires row.isActive ==> NoConflict(db.policies, row.def, row.priority, Some(id))
    ensures RowsSound(db.policies[id := row], nextId) && NoTies(db.policies[id := row])
  {
    var policies := db.policies[id := row];
    forall i, j | i in policies && j in policies && i != j && policies[i].isActive
      ensures !Clashes(policies[i].def, policies[i].priority, policies[j])
    {
      if j == id && row.isActive {
        ClashIsSymmetric(row, policies[i]);
      }
    }
  }

  lemma CreateKeepsSound(db: Db, d: Definition, priority: int)
    requires PoliciesSound(db) && CreatePolicy(db, d, priority).Success?
    ensures PoliciesSound(CreatePolicy(db, d, priority).value)
  {
    WriteKeepsSound(db, db.nextId, Policy(db.nextId, d, priority, true, None), db.nextId + 1);
  }

  lemma UpdateKeepsSound(db: Db, id: int, c: Changes)
    requires PoliciesSound(db) && UpdatePolicy(db, id, c).Success?
    ensures PoliciesSound(UpdatePolicy(db, id, c).value)
  {
    WriteKeepsSound(db, id, Edited(db.policies[id], c), db.nextId);
  }

  lemma SetActiveKeepsSound(db: Db, id: int, isActive: bool)
    requires PoliciesSound(db) && SetPolicyActive(db, id, isActive).Success?
    ensures PoliciesSound(SetPolicyActive(db, id, isActive).value)
  {
    WriteKeepsSound(db, id, db.policies[id].(isActive := isActive), db.nextId);
  }

  lemma ArchiveKeepsSound(db: Db, id: int, now: int)
    requires PoliciesSound(db) && ArchivePolicy(db, id, now).Success?
    ensures PoliciesSound(ArchivePolicy(db, id, now).value)
  {
    if db.policies[id].archivedAt.None? {
      WriteKeepsSound(db, id, db.policies[id].(isActive := false, archivedAt := Some(now)), db.nextId);
    }
  }

  lemma RestoreKeepsSound(db: Db, id: int)
    requires PoliciesSound(db) && RestorePolicy(db, id).Success?
    ensures PoliciesSound(RestorePolicy(db, id).value)
  {
    WriteKeepsSound(db, id, db.policies[id].(isActive := false, archivedAt := None), db.nextId);
  }

  /** A policy that is edited keeps its scope, type and target. */
  lemma UpdateKeepsIdentity(db: Db, id: int, c: Changes)
    requires UpdatePolicy(db, id, c).Success?
    ensures
      var before, after := db.policies[id], UpdatePolicy(db, id, c).value.policies[id];
      && SameTarget(before.def, after.def) && before.def.deviceTypeId == after.def.deviceTypeId
      && before.def.deviceId == after.def.deviceId && before.def.policyType == after.def.policyType
      && before.isActive == after.isActive
  {
  }

  /** Two rows tie at an instant for a device: both reach it and are in effect, with
      one scope and priority. */
  ghost predicate TieAt(p: Policy, q: Policy, deviceId: int, typeId: int, now: int) {
    && Reaches(p, deviceId, typeId) && Reaches(q, deviceId, typeId)
    && IsInEffect(p, now) && IsInEffect(q, now)
    && p.def.scope == q.def.scope && p.priority == q.priority
  }

  /** The write-time test is exact: it refuses a pair of unarchived active policies
      precisely when some device could see them tie at some instant. */
  lemma ClashIffTie(p: Policy, q: Policy)
    requires WellFormed(p.def) && WellFormed(q.def)
    requires p.isActive && q.isActive && p.archivedAt.None? && q.archivedAt.None?
    ensures Clashes(p.def, p.priority, q)
            <==> exists deviceId, typeId, now :: TieAt(p, q, deviceId, typeId, now)
  {
    OverlapIsExact(p.def.window, q.def.window);
    if Clashes(p.def, p.priority, q) {
      var now :| Contains(p.def.window, now) && Contains(q.def.window, now);
      var deviceId := if p.def.deviceId.Some? then p.def.deviceId.value else 0;
      var typeId := if p.def.deviceTypeId.Some? then p.def.deviceTypeId.value else 0;
      assert TieAt(p, q, deviceId, typeId, now);
    }
    if deviceId, typeId, now :| TieAt(p, q, deviceId, typeId, now) {
      assert Contains(p.def.window, now) && Contains(q.def.window, now);
    }
  }

  /** Under the invariant the read-time conflict branch is unreachable, for every
      device and every instant. */
  lemma ResolveNeverConflicts(db: Db, deviceId: int, typeId: int, now: int)
    requires PoliciesSound(db)
    ensures !Resolve(db.policies, deviceId, typeId, now).conflict
  {
    var applicable := Applicable(db.policies, deviceId, typeId);
    var rows := multiset(applicable);
    var r := Resolve(db.policies, deviceId, typeId, now);
    ResolveMeetsSpec(Rows(applicable), now);
    if r.conflict {
      var p :| Top(rows, now, p) && !OnlyTop(rows, now, p);
      assert rows[p] == 1;
      var q :| Top(rows, now, q) && q != p;
      assert !Outranks(p, q) && !Outranks(q, p);
      assert TieAt(p, q, deviceId, typeId, now);
      ClashIffTie(p, q);
    }
  }

  /** What a resolution answers, in terms of the rows of a sound table. */
  lemma ResolvedPolicyIsSound(db: Db, deviceId: int, typeId: int, now: int)
    requires PoliciesSound(db)
    ensures
      var r := Resolve(db.policies, deviceId, typeId, now);
      r.policy.Some? ==>
        var p := r.policy.value;
        && p.id in db.policies && db.policies[p.id] == p && WellFormed(p.def)
        && Reaches(p, deviceId, typeId) && IsInEffect(p, now) && r.scope == Some(p.def.scope)
  {
    ResolveMeetsSpec(Rows(Applicable(db.policies, deviceId, typeId)), now);
  }

  /** A stored row that applies to the device at the instant, column by column. */
  ghost predicate Applies(db: Db, p: Policy, deviceId: int, typeId: int, now: int) {
    && p.id in db.policies && db.policies[p.id] == p
    && p.isActive && p.archivedAt.None?
    && (|| p.def.scope.GlobalScope?
        || (p.def.scope.DeviceTypeScope? && p.def.deviceTypeId == Some(typeId))
        || (p.def.scope.DeviceScope? && p.def.deviceId == Some(deviceId)))
    && (p.def.window.startsAt.Some? ==> p.def.window.startsAt.value <= now)
    && (p.def.window.endsAt.Some? ==> now < p.def.window.endsAt.value)
  }

  /** A device's own policy comes before one of its type, that before a global one,
      and within one scope the higher priority does. */
  ghost predicate ComesBefore(p: Policy, q: Policy) {
    || (p.def.scope.DeviceScope? && !q.def.scope.DeviceScope?)
    || (p.def.scope.DeviceTypeScope? && q.def.scope.GlobalScope?)
    || (p.def.scope == q.def.scope && q.priority < p.priority)
  }

  /** In a sound table a policy governs a device exactly when it applies and comes
      before every other policy that does, and nothing governs exactly when nothing
      applies: a narrower scope shuts out a wider one even where it permits less. */
  lemma GovernsIff(db: Db, deviceId: int, typeId: int, now: int, p: Policy)
    requires PoliciesSound(db)
    ensures Resolve(db.policies, deviceId, typeId, now).policy == Some(p)
            <==> && Applies(db, p, deviceId, typeId, now)
                 && forall q :: Applies(db, q, deviceId, typeId, now) && q != p ==> ComesBefore(p, q)
    ensures Resolve(db.policies, deviceId, typeId, now).policy.None?
            <==> forall q :: !Applies(db, q, deviceId, typeId, now)
  {
    var r := Resolve(db.policies, deviceId, typeId, now);
    var applicable := Applicable(db.policies, deviceId, typeId);
    var rows := multiset(applicable);
    ResolveMeetsSpec(Rows(applicable), now);
    ResolveNeverConflicts(db, deviceId, typeId, now);
    assert forall q :: Applies(db, q, deviceId, typeId, now) <==> q in rows && IsInEffect(q, now);
    assert forall q, s :: ComesBefore(q, s) <==> Outranks(q, s);
    if r.policy.Some? {
      WinnerComesFirst(db, deviceId, typeId, now, r.policy.value);
    }
  }

  lemma WinnerComesFirst(db: Db, deviceId: int, typeId: int, now: int, w: Policy)
    requires PoliciesSound(db) && Applies(db, w, deviceId, typeId, now)
    requires forall q :: Applies(db, q, deviceId, typeId, now) ==> !ComesBefore(q, w)
    ensures forall q :: Applies(db, q, deviceId, typeId, now) && q != w ==> ComesBefore(w, q) && !ComesBefore(q, w)
  {
    forall q | Applies(db, q, deviceId, typeId, now) && q != w
      ensures ComesBefore(w, q)
    {
      assert w.id != q.id && !Clashes(db.policies[w.id].def, db.policies[w.id].priority, db.policies[q.id]);
      ClashIffTie(w, q);
      assert !TieAt(w, q, deviceId, typeId, now);
    }
  }

  /* ----- what each call stores ----- */

  /** Of all tables only the row `id` of the policies was written. */
  ghost predicate OnlyPolicyWritten(db: Db, next: Db, id: int) {
    && next.types == db.types && next.devices == db.devices && next.tokens == db.tokens
    && next.releases == db.releases && next.attempts == db.attempts && next.communications == db.communications
    && id in next.policies && next.policies.Keys == db.policies.Keys + {id}
    && forall j :: j in db.policies && j != id ==> next.policies[j] == db.policies[j]
  }

  /** The target the scope asks for exists. */
  ghost predicate TargetFound(db: Db, d: Definition) {
    && (d.scope.DeviceTypeScope? ==> d.deviceTypeId.Some? && d.deviceTypeId.value in db.types)
    && (d.scope.DeviceScope? ==> d.deviceId.Some? && d.deviceId.value in db.devices)
  }

  /** Another active row, with the same target and priority, is in force at some
      instant of the window. */
  ghost predicate Rivalled(db: Db, d: Definition, priority: int, id: int) {
    exists j ::
      && j in db.policies && j != id && db.policies[j].isActive && db.policies[j].priority == priority
      && var e := db.policies[j].def;
         && e.scope == d.scope && e.deviceTypeId == d.deviceTypeId && e.deviceId == d.deviceId
         && ShareInstant(e.window, d.window)
  }

  lemma RivalledIffConflict(db: Db, d: Definition, priority: int, exclude: Option<int>, id: int)
    requires PoliciesSound(db) && WellFormed(d)
    requires exclude == Some(id) || (exclude.None? && id !in db.policies)
    ensures Rivalled(db, d, priority, id) <==> !NoConflict(db.policies, d, priority, exclude)
  {
    forall j | j in db.policies
      ensures ShareInstant(db.policies[j].def.window, d.window) <==> WindowsOverlap(d.window, db.policies[j].def.window)
    {
      OverlapIsExact(db.policies[j].def.window, d.window);
    }
  }

  /** Creation succeeds iff the definition is well formed, its target exists and it has
      no rival; the new row is active, carries what was asked for, and is the only one
      written. */
  lemma CreateStores(db: Db, d: Definition, priority: int)
    requires PoliciesSound(db)
    ensures CreatePolicy(db, d, priority).Success?
            <==> WellFormed(d) && TargetFound(db, d) && !Rivalled(db, d, priority, db.nextId)
    ensures CreatePolicy(db, d, priority) == Failure(PolicyConflict)
            <==> WellFormed(d) && TargetFound(db, d) && Rivalled(db, d, priority, db.nextId)
    ensures CreatePolicy(db, d, priority).Success? ==>
              var next := CreatePolicy(db, d, priority).value;
              && OnlyPolicyWritten(db, next, db.nextId) && next.nextId == db.nextId + 1
              && db.nextId !in db.policies
              && var p := next.policies[db.nextId];
                 && p.id == db.nextId && p.def == d && p.priority == priority
                 && p.isActive && p.archivedAt.None?
  {
    if WellFormed(d) {
      RivalledIffConflict(db, d, priority, None, db.nextId);
    }
  }

  /** A successful edit stores each value it was given, leaves every other column of
      the row as it was, and writes no other row. */
  lemma UpdateStores(db: Db, id: int, c: Changes)
    requires PoliciesSound(db) && UpdatePolicy(db, id, c).Success?
    ensures id in db.policies && !c.touchesImmutable && db.policies[id].archivedAt.None?
    ensures
      var next := UpdatePolicy(db, id, c).value;
      && OnlyPolicyWritten(db, next, id) && next.nextId == db.nextId
      && var p, q := db.policies[id], next.policies[id];
         && q.def.targetVersion == (if c.targetVersion.Some? then c.targetVersion.value else p.def.targetVersion)
         && q.def.minVersion == (if c.minVersion.Some? then c.minVersion.value else p.def.minVersion)
         && q.def.maxVersion == (if c.maxVersion.Some? then c.maxVersion.value else p.def.maxVersion)
         && q.def.window.startsAt == (if c.startsAt.Some? then c.startsAt.value else p.def.window.startsAt)
         && q.def.window.endsAt == (if c.endsAt.Some? then c.endsAt.value else p.def.window.endsAt)
         && q.priority == (if c.priority.Some? then c.priority.value else p.priority)
         && q.id == p.id && q.isActive == p.isActive && q.archivedAt == p.archivedAt
         && q.def.scope == p.def.scope && q.def.policyType == p.def.policyType
         && q.def.deviceTypeId == p.def.deviceTypeId && q.def.deviceId == p.def.deviceId
         && WellFormed(q.def) && TargetFound(db, q.def) && !Rivalled(db, q.def, q.priority, id)
  {
    var q := UpdatePolicy(db, id, c).value.policies[id];
    RivalledIffConflict(db, q.def, q.priority, Some(id), id);
  }

  /** `q` and `priority` are what the edit would store in the row. */
  ghost predicate WouldStore(p: Policy, c: Changes, q: Definition, priority: int) {
    && q == p.def.(targetVersion := if c.targetVersion.Some? then c.targetVersion.value else p.def.targetVersion,
                   minVersion := if c.minVersion.Some? then c.minVersion.value else p.def.minVersion,
                   maxVersion := if c.maxVersion.Some? then c.maxVersion.value else p.def.maxVersion,
                   window := Window(if c.startsAt.Some? then c.startsAt.value else p.def.window.startsAt,
                                    if c.endsAt.Some? then c.endsAt.value else p.def.window.endsAt))
    && priority == if c.priority.Some? then c.priority.value else p.priority
  }

  lemma EditedIs(p: Policy, c: Changes, q: Definition, priority: int)
    requires WouldStore(p, c, q, priority)
    ensures Edited(p, c).def == q && Edited(p, c).priority == priority
  {
  }

  /** When an edit is accepted, and what it is refused for. */
  lemma UpdateSucceedsIff(db: Db, id: int, c: Changes, q: Definition, priority: int)
    requires PoliciesSound(db) && (id in db.policies ==> WouldStore(db.policies[id], c, q, priority))
    ensures
      var r := UpdatePolicy(db, id, c);
      var open := id in db.policies && db.policies[id].archivedAt.None? && !c.touchesImmutable;
      && (r.Success? <==> open && WellFormed(q) && TargetFound(db, q) && !Rivalled(db, q, priority, id))
      && (r == Failure(PolicyNotFound) <==> id !in db.policies)
      && (r == Failure(PolicyArchived) <==> id in db.policies && db.policies[id].archivedAt.Some?)
      && (r == Failure(PolicyConflict)
          <==> open && WellFormed(q) && TargetFound(db, q) && Rivalled(db, q, priority, id))
  {
    if id in db.policies {
      EditedIs(db.policies[id], c, q, priority);
      if WellFormed(q) {
        RivalledIffConflict(db, q, priority, Some(id), id);
      }
      DefinitionRefused(db, q);
    }
  }

  /** A definition's own error is never one of the four about the row. */
  lemma DefinitionRefused(db: Db, d: Definition)
    ensures DefinitionError(db, d).None? <==> WellFormed(d) && TargetFound(db, d)
    ensures DefinitionError(db, d).Some? ==>
              DefinitionError(db, d).value !in {PolicyNotFound, PolicyArchived, PolicyImmutable, PolicyConflict}
  {
  }

  /** Switching a policy on or off: refused for an archived row, and on for a rivalled
      one; it stores the flag and nothing else. */
  lemma SetActiveStores(db: Db, id: int, isActive: bool)
    requires PoliciesSound(db)
    ensures SetPolicyActive(db, id, isActive).Success?
            <==> && id in db.policies && db.policies[id].archivedAt.None?
                 && (isActive ==> !Rivalled(db, db.policies[id].def, db.policies[id].priority, id))
    ensures SetPolicyActive(db, id, isActive).Success? ==>
              var next := SetPolicyActive(db, id, isActive).value;
              && OnlyPolicyWritten(db, next, id) && next.nextId == db.nextId
              && next.policies[id].isActive == isActive
              && next.policies[id] == db.policies[id].(isActive := next.policies[id].isActive)
  {
    if id in db.policies {
      RivalledIffConflict(db, db.policies[id].def, db.policies[id].priority, Some(id), id);
    }
  }

  /** Archiving never fails for an existing row, leaves it inactive and archived, and
      keeps the time of the first archiving; restoring undoes the archiving only. */
  lemma ArchiveAndRestoreStore(db: Db, id: int, now: int)
    requires PoliciesSound(db)
    ensures ArchivePolicy(db, id, now).Success? <==> id in db.policies
    ensures ArchivePolicy(db, id, now).Success? ==>
              var next := ArchivePolicy(db, id, now).value;
              && OnlyPolicyWritten(db, next, id) && next.nextId == db.nextId
              && !next.policies[id].isActive
              && next.policies[id].archivedAt
                 == (if db.policies[id].archivedAt.Some? then db.policies[id].archivedAt else Some(now))
              && next.policies[id].def == db.policies[id].def && next.policies[id].priority == db.policies[id].priority
    ensures RestorePolicy(db, id).Success? <==> id in db.policies && db.policies[id].archivedAt.Some?
    ensures RestorePolicy(db, id).Success? ==>
              var next := RestorePolicy(db, id).value;
              && OnlyPolicyWritten(db, next, id) && next.nextId == db.nextId
              && !next.policies[id].isActive && next.policies[id].archivedAt.None?
              && next.policies[id].def == db.policies[id].def && next.policies[id].priority == db.policies[id].priority
  {
  }

  /* ----- and what that does to the devices ----- */

  lemma OthersApplyAsBefore(db: Db, next: Db, id: int, deviceId: int, typeId: int, now: int)
    requires OnlyPolicyWritten(db, next, id)
    ensures forall q :: Applies(next, q, deviceId, typeId, now) && q.id != id ==> Applies(db, q, deviceId, typeId, now)
  {
  }

  /** A policy created with a rank before every other that applies to a device governs
      it from then on, at every instant of its window. */
  lemma CreatedPolicyGoverns(db: Db, d: Definition, priority: int, deviceId: int, typeId: int, now: int)
    requires PoliciesSound(db) && CreatePolicy(db, d, priority).Success?
    requires
      var p := Policy(db.nextId, d, priority, true, None);
      && Applies(CreatePolicy(db, d, priority).value, p, deviceId, typeId, now)
      && forall q :: Applies(db, q, deviceId, typeId, now) ==> ComesBefore(p, q)
    ensures
      var next := CreatePolicy(db, d, priority).value;
      Resolve(next.policies, deviceId, typeId, now).policy == Some(Policy(db.nextId, d, priority, true, None))
  {
    var next := CreatePolicy(db, d, priority).value;
    CreateKeepsSound(db, d, priority);
    CreateStores(db, d, priority);
    OthersApplyAsBefore(db, next, db.nextId, deviceId, typeId, now);
    GovernsIff(next, deviceId, typeId, now, next.policies[db.nextId]);
  }

  /** A policy that applies to a device and is edited to a priority above every other
      at its scope, with nothing narrower in force, governs the device. */
  lemma RaisedPolicyGoverns(db: Db, id: int, priority: int, deviceId: int, typeId: int, now: int)
    requires PoliciesSound(db) && id in db.policies && Applies(db, db.policies[id], deviceId, typeId, now)
    requires UpdatePolicy(db, id, PriorityOnly(priority)).Success?
    requires forall q :: Applies(db, q, deviceId, typeId, now) && q.id != id ==>
               if q.def.scope == db.policies[id].def.scope then q.priority < priority
               else ComesBefore(db.policies[id], q)
    ensures
      var next := UpdatePolicy(db, id, PriorityOnly(priority)).value;
      && id in next.policies && next.policies[id].priority == priority
      && Resolve(next.policies, deviceId, typeId, now).policy == Some(next.policies[id])
  {
    var next := UpdatePolicy(db, id, PriorityOnly(priority)).value;
    UpdateKeepsSound(db, id, PriorityOnly(priority));
    UpdateStores(db, id, PriorityOnly(priority));
    OthersApplyAsBefore(db, next, id, deviceId, typeId, now);
    GovernsIff(next, deviceId, typeId, now, next.policies[id]);
  }

  function PriorityOnly(priority: int): Changes {
    Changes(false, None, None, None, None, None, Some(priority))
  }

  /** A policy that was switched off, archived or restored governs nobody. */
  lemma WithdrawnPolicyGovernsNobody(
    db: Db, id: int, next: Db, archivedAt: int, deviceId: int, typeId: int, now: int)
    requires PoliciesSound(db)
    requires SetPolicyActive(db, id, false) == Success(next) || ArchivePolicy(db, id, archivedAt) == Success(next)
             || RestorePolicy(db, id) == Success(next)
    ensures
      var r := Resolve(next.policies, deviceId, typeId, now);
      r.policy.Some? ==> r.policy.value.id != id
  {
    SetActiveStores(db, id, false);
    ArchiveAndRestoreStore(db, id, archivedAt);
    if SetPolicyActive(db, id, false) == Success(next) {
      SetActiveKeepsSound(db, id, false);
    } else if ArchivePolicy(db, id, archivedAt) == Success(next) {
      ArchiveKeepsSound(db, id, archivedAt);
    } else {
      RestoreKeepsSound(db, id);
    }
    var r := Resolve(next.policies, deviceId, typeId, now);
    if r.policy.Some? {
      GovernsIff(next, deviceId, typeId, now, r.policy.value);
    }
  }
}
