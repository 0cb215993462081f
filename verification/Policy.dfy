/** What a policy may say, and which one governs a device (app/domain/policy.py). */
module PolicyRules {
  import opened Wrappers
  import opened Tables
  import opened Version

  /* ----- definitions ----- */

  /** The two CHECK constraints of the `update_policies` table. */
  ghost predicate ScopeTargetCheck(d: Definition) {
    || (d.scope.GlobalScope? && d.deviceTypeId.None? && d.deviceId.None?)
    || (d.scope.DeviceTypeScope? && d.deviceTypeId.Some? && d.deviceId.None?)
    || (d.scope.DeviceScope? && d.deviceId.Some? && d.deviceTypeId.None?)
  }

  ghost predicate TypeFieldsCheck(d: Definition) {
    || (d.policyType.Disable? && d.targetVersion.None? && d.minVersion.None? && d.maxVersion.None?)
    || (d.policyType.Pin? && d.targetVersion.Some? && d.minVersion.None? && d.maxVersion.None?)
    || (d.policyType.Range? && d.targetVersion.None? && (d.minVersion.Some? || d.maxVersion.Some?))
  }

  ghost predicate OptionalVersionOk(v: Option<string>) {
    v.Some? ==> IsValidVersion(v.value)
  }

  ghost predicate WellFormed(d: Definition) {
    && ScopeTargetCheck(d)
    && TypeFieldsCheck(d)
    && OptionalVersionOk(d.targetVersion)
    && OptionalVersionOk(d.minVersion)
    && OptionalVersionOk(d.maxVersion)
    && (d.minVersion.Some? && d.maxVersion.Some? ==>
          Key(d.minVersion.value).AtMost(Key(d.maxVersion.value)))
    && NonEmpty(d.window)
  }

  function VersionError(v: Option<string>): Option<Code> {
    if v.Some? && ParseVersion(v.value).None? then Some(InvalidVersion) else None
  }

  function ScopeError(d: Definition): Option<Code> {
    match d.scope
    case GlobalScope =>
      if d.deviceTypeId.Some? || d.deviceId.Some? then Some(PolicyScopeTargetForbidden) else None
    case DeviceTypeScope =>
      if d.deviceTypeId.None? then Some(PolicyScopeTargetRequired)
      else if d.deviceId.Some? then Some(PolicyScopeTargetForbidden)
      else None
    case DeviceScope =>
      if d.deviceId.None? then Some(PolicyScopeTargetRequired)
      else if d.deviceTypeId.Some? then Some(PolicyScopeTargetForbidden)
      else None
  }

  function TypeError(d: Definition): Option<Code> {
    match d.policyType
    case Disable =>
      if d.targetVersion.Some? || d.minVersion.Some? || d.maxVersion.Some?
      then Some(PolicyVersionForbidden) else None
    case Pin =>
      if d.targetVersion.None? then Some(PolicyTargetRequired)
      else if d.minVersion.Some? || d.maxVersion.Some? then Some(PolicyVersionForbidden)
      else VersionError(d.targetVersion)
    case Range =>
      if d.targetVersion.Some? then Some(PolicyVersionForbidden)
      else if d.minVersion.None? && d.maxVersion.None? then Some(PolicyTargetRequired)
      else if VersionError(d.minVersion).Some? then VersionError(d.minVersion)
      else if VersionError(d.maxVersion).Some? then VersionError(d.maxVersion)
      else if d.minVersion.Some? && d.maxVersion.Some?
              && Key(d.maxVersion.value).Less(Key(d.minVersion.value))
      then Some(PolicyRangeInvalid)
      else None
  }

  /** `None` accepts; otherwise the code of the first rule broken, in the order
      scope, type and versions, window. It accepts exactly what the table's own
      constraints and the version and window rules allow. */
  function ValidatePolicyDefinition(d: Definition): (error: Option<Code>)
    ensures error.None? <==> WellFormed(d)
    ensures error == Some(PolicyWindowInvalid) ==> !NonEmpty(d.window)
  {
    if ScopeError(d).Some? then ScopeError(d)
    else if TypeError(d).Some? then TypeError(d)
    else if d.window.startsAt.Some? && d.window.endsAt.Some?
            && d.window.startsAt.value >= d.window.endsAt.value
    then Some(PolicyWindowInvalid)
    else None
  }

  /** A refusal names the first rule that is broken: the scope's targets, the type's
      fields, the versions, their order, the window. */
  lemma RefusalNamesTheRule(d: Definition)
    ensures
      var e := ValidatePolicyDefinition(d);
      var parse := && OptionalVersionOk(d.targetVersion)
                   && OptionalVersionOk(d.minVersion) && OptionalVersionOk(d.maxVersion);
      var ordered := parse && (d.minVersion.Some? && d.maxVersion.Some? ==>
                                 !Key(d.maxVersion.value).Less(Key(d.minVersion.value)));
      && (e == Some(PolicyScopeTargetForbidden) || e == Some(PolicyScopeTargetRequired) <==> !ScopeTargetCheck(d))
      && (e == Some(PolicyVersionForbidden) || e == Some(PolicyTargetRequired)
          <==> ScopeTargetCheck(d) && !TypeFieldsCheck(d))
      && (e == Some(InvalidVersion) <==> ScopeTargetCheck(d) && TypeFieldsCheck(d) && !parse)
      && (e == Some(PolicyRangeInvalid) <==> ScopeTargetCheck(d) && TypeFieldsCheck(d) && parse && !ordered)
      && (e == Some(PolicyWindowInvalid)
          <==> ScopeTargetCheck(d) && TypeFieldsCheck(d) && ordered && !NonEmpty(d.window))
  {
  }

  /* ----- windows ----- */

  function WindowsOverlap(first: Window, second: Window): bool {
    if first.endsAt.Some? && second.startsAt.Some? && first.endsAt.value <= second.startsAt.value
    then false
    else !(second.endsAt.Some? && first.startsAt.Some? && second.endsAt.value <= first.startsAt.value)
  }

  predicate IsInEffect(p: Policy, now: int) {
    && p.isActive
    && !(p.def.window.startsAt.Some? && p.def.window.startsAt.value > now)
    && !(p.def.window.endsAt.Some? && p.def.window.endsAt.value <= now)
  }

  /** The instants of a half-open, possibly open-ended window. */
  ghost predicate Contains(w: Window, t: int) {
    && (w.startsAt.Some? ==> w.startsAt.value <= t)
    && (w.endsAt.Some? ==> t < w.endsAt.value)
  }

  ghost predicate NonEmpty(w: Window) {
    w.startsAt.Some? && w.endsAt.Some? ==> w.startsAt.value < w.endsAt.value
  }

  ghost predicate ShareInstant(first: Window, second: Window) {
    exists t :: Contains(first, t) && Contains(second, t)
  }

  function Latest(first: Option<int>, second: Option<int>): Option<int> {
    if first.None? then second
    else if second.None? then first
    else if first.value < second.value then second else first
  }

  function Earliest(first: Option<int>, second: Option<int>): Option<int> {
    if first.None? then second
    else if second.None? then first
    else if first.value < second.value then first else second
  }

  /** The overlap test is exact. For arbitrary windows it has to be joined with
      both being non-empty, which is what validation guarantees. */
  lemma OverlapIsExact(first: Window, second: Window)
    ensures ShareInstant(first, second)
            <==> WindowsOverlap(first, second) && NonEmpty(first) && NonEmpty(second)
    ensures WindowsOverlap(first, second) == WindowsOverlap(second, first)
  {
    if WindowsOverlap(first, second) && NonEmpty(first) && NonEmpty(second) {
      var start := Latest(first.startsAt, second.startsAt);
      var end := Earliest(first.endsAt, second.endsAt);
      var t := if start.Some? then start.value else if end.Some? then end.value - 1 else 0;
      assert Contains(first, t) && Contains(second, t);
    }
  }

  /** Non-emptiness cannot be dropped: an empty window passes the overlap test. */
  lemma EmptyWindowOverlaps()
    ensures exists first, second ::
              WindowsOverlap(first, second) && !ShareInstant(first, second)
  {
    var empty := Window(Some(5), Some(5));
    var always := Window(None, None);
    assert forall t :: !Contains(empty, t);
    assert WindowsOverlap(empty, always) && !ShareInstant(empty, always);
  }

  /* ----- ranges ----- */

  /** Inclusive range test on the numeric triple. */
  function VersionInRange(v: string, minVersion: Option<string>, maxVersion: Option<string>): bool
    requires IsValidVersion(v) && OptionalVersionOk(minVersion) && OptionalVersionOk(maxVersion)
  {
    if minVersion.Some? && Key(v).Less(Key(minVersion.value)) then false
    else !(maxVersion.Some? && Key(maxVersion.value).Less(Key(v)))
  }

  /* ----- resolution ----- */

  datatype Resolution = Resolution(policy: Option<Policy>, scope: Option<PolicyScope>, conflict: bool)

  const SCOPE_PRECEDENCE := [DeviceScope, DeviceTypeScope, GlobalScope]

  /** A list comprehension with a condition. */
  function Filter<T>(rows: seq<T>, keep: T -> bool): seq<T> {
    if rows == [] then []
    else if keep(rows[0]) then [rows[0]] + Filter(rows[1..], keep)
    else Filter(rows[1..], keep)
  }

  function MaxPriority(rows: seq<Policy>): (m: int)
    requires rows != []
    ensures exists p :: p in rows && p.priority == m
    ensures forall p :: p in rows ==> p.priority <= m
  {
    if |rows| == 1 then rows[0].priority
    else
      var rest := MaxPriority(rows[1..]);
      assert rows == [rows[0]] + rows[1..];
      if rows[0].priority > rest then rows[0].priority else rest
  }

  function InEffect(rows: seq<Policy>, now: int): seq<Policy> {
    Filter(rows, (p: Policy) => IsInEffect(p, now))
  }

  function AtScope(rows: seq<Policy>, scope: PolicyScope): seq<Policy> {
    Filter(rows, (p: Policy) => p.def.scope == scope)
  }

  function AtPriority(rows: seq<Policy>, priority: int): seq<Policy> {
    Filter(rows, (p: Policy) => p.priority == priority)
  }

  /** The winners at one scope, and what they mean. */
  function ResolveAtScope(atScope: seq<Policy>, scope: PolicyScope): Resolution
    requires atScope != []
  {
    var winners := AtPriority(atScope, MaxPriority(atScope));
    FilterMembers(atScope, (p: Policy) => p.priority == MaxPriority(atScope));
    if |winners| > 1 then Resolution(None, Some(scope), true)
    else Resolution(Some(winners[0]), Some(scope), false)
  }

  function ResolveAtScopes(inEffect: seq<Policy>, scopes: seq<PolicyScope>): Resolution {
    if scopes == [] then Resolution(None, None, false)
    else
      var atScope := AtScope(inEffect, scopes[0]);
      if atScope == [] then ResolveAtScopes(inEffect, scopes[1..])
      else ResolveAtScope(atScope, scopes[0])
  }

  function ResolvePolicies(policies: seq<Policy>, now: int): Resolution {
    ResolveAtScopes(InEffect(policies, now), SCOPE_PRECEDENCE)
  }

  /* The specification: a ranking on the bag of rows, with no order of its own. */

  function Width(s: PolicyScope): nat {
    match s
    case DeviceScope => 0
    case DeviceTypeScope => 1
    case GlobalScope => 2
  }

  ghost predicate Outranks(p: Policy, q: Policy) {
    || Width(p.def.scope) < Width(q.def.scope)
    || (p.def.scope == q.def.scope && p.priority > q.priority)
  }

  ghost predicate Top(rows: multiset<Policy>, now: int, p: Policy) {
    && p in rows && IsInEffect(p, now)
    && forall q :: q in rows && IsInEffect(q, now) ==> !Outranks(q, p)
  }

  ghost predicate OnlyTop(rows: multiset<Policy>, now: int, p: Policy) {
    && Top(rows, now, p) && rows[p] == 1
    && forall q :: Top(rows, now, q) ==> q == p
  }

  /** `r` is the right answer: nothing in effect, or the unique best policy, or a
      conflict at the best scope because the best policy is not unique. */
  ghost predicate ResolvesTo(rows: multiset<Policy>, now: int, r: Resolution) {
    if r.conflict then
      && r.policy.None?
      && exists p :: Top(rows, now, p) && !OnlyTop(rows, now, p) && r.scope == Some(p.def.scope)
    else if r.policy.Some? then
      OnlyTop(rows, now, r.policy.value) && r.scope == Some(r.policy.value.def.scope)
    else
      r.scope.None? && forall q :: q in rows ==> !IsInEffect(q, now)
  }

  lemma {:induction false} FilterCounts<T>(rows: seq<T>, keep: T -> bool, x: T)
    ensures multiset(Filter(rows, keep))[x] == if keep(x) then multiset(rows)[x] else 0
  {
    if rows != [] {
      FilterCounts(rows[1..], keep, x);
      assert rows == [rows[0]] + rows[1..];
      assert Filter(rows, keep)
        == (if keep(rows[0]) then [rows[0]] else []) + Filter(rows[1..], keep);
    }
  }

  lemma FilterMembers<T>(rows: seq<T>, keep: T -> bool)
    ensures forall x :: x in Filter(rows, keep) <==> x in rows && keep(x)
  {
  }

  ghost predicate AtBest(p: Policy, now: int, scope: PolicyScope, highest: int) {
    IsInEffect(p, now) && p.def.scope == scope && p.priority == highest
  }

  lemma WinnersCount(policies: seq<Policy>, now: int, scope: PolicyScope, highest: int)
    ensures
      var winners := AtPriority(AtScope(InEffect(policies, now), scope), highest);
      forall p :: multiset(winners)[p]
                  == if AtBest(p, now, scope, highest) then multiset(policies)[p] else 0
  {
    var winners := AtPriority(AtScope(InEffect(policies, now), scope), highest);
    forall p
      ensures multiset(winners)[p]
              == if AtBest(p, now, scope, highest) then multiset(policies)[p] else 0
    {
      FilterCounts(policies, (q: Policy) => IsInEffect(q, now), p);
      FilterCounts(InEffect(policies, now), (q: Policy) => q.def.scope == scope, p);
      FilterCounts(AtScope(InEffect(policies, now), scope), (q: Policy) => q.priority == highest, p);
    }
  }

  lemma ScopeMembers(policies: seq<Policy>, now: int, scope: PolicyScope)
    ensures
      var atScope := AtScope(InEffect(policies, now), scope);
      forall p :: p in atScope <==> p in policies && IsInEffect(p, now) && p.def.scope == scope
  {
    FilterMembers(policies, (q: Policy) => IsInEffect(q, now));
    FilterMembers(InEffect(policies, now), (q: Policy) => q.def.scope == scope);
  }

  ghost predicate NoneNarrower(policies: seq<Policy>, now: int, scope: PolicyScope) {
    forall p :: p in policies && IsInEffect(p, now) ==> Width(scope) <= Width(p.def.scope)
  }

  /** At the narrowest inhabited scope, the rows at the highest priority are
      exactly the top-ranked ones. */
  lemma BestIsTop(policies: seq<Policy>, now: int, scope: PolicyScope, p: Policy)
    requires AtScope(InEffect(policies, now), scope) != [] && NoneNarrower(policies, now, scope)
    ensures
      var highest := MaxPriority(AtScope(InEffect(policies, now), scope));
      Top(multiset(policies), now, p) <==> p in policies && AtBest(p, now, scope, highest)
  {
    var atScope := AtScope(InEffect(policies, now), scope);
    var highest := MaxPriority(atScope);
    ScopeMembers(policies, now, scope);
    var w :| w in atScope && w.priority == highest;
    if p in policies && AtBest(p, now, scope, highest) {
      forall q | q in multiset(policies) && IsInEffect(q, now)
        ensures !Outranks(q, p)
      {
        assert q.def.scope == scope ==> q in atScope;
      }
    }
    if Top(multiset(policies), now, p) {
      assert w in multiset(policies) && !Outranks(w, p);
      assert Width(scope) <= Width(p.def.scope);
      assert p in atScope;
    }
  }

  lemma {:induction false} LoneMember(winners: seq<Policy>, w: Policy)
    requires w in winners
    ensures |winners| == 1 <==> multiset(winners)[w] == 1 && forall q :: q in winners ==> q == w
  {
    if |winners| == 1 {
      assert winners == [winners[0]];
    } else {
      assert winners == [winners[0], winners[1]] + winners[2..];
      assert winners[0] in winners && winners[1] in winners;
      if winners[0] == winners[1] {
        assert multiset(winners) == multiset{winners[0], winners[1]} + multiset(winners[2..]);
      }
    }
  }

  lemma ScopeDecides(policies: seq<Policy>, now: int, scope: PolicyScope)
    requires AtScope(InEffect(policies, now), scope) != [] && NoneNarrower(policies, now, scope)
    ensures ResolvesTo(multiset(policies), now,
                       ResolveAtScope(AtScope(InEffect(policies, now), scope), scope))
  {
    var rows := multiset(policies);
    var atScope := AtScope(InEffect(policies, now), scope);
    var highest := MaxPriority(atScope);
    var winners := AtPriority(atScope, highest);
    WinnersCount(policies, now, scope, highest);
    FilterMembers(atScope, (p: Policy) => p.priority == highest);
    assert winners != [];
    var w := winners[0];
    forall p
      ensures p in winners <==> Top(rows, now, p)
      ensures p in winners ==> multiset(winners)[p] == rows[p]
    {
      BestIsTop(policies, now, scope, p);
      assert p in winners <==> multiset(winners)[p] > 0;
    }
    LoneMember(winners, w);
    assert Top(rows, now, w);
    assert OnlyTop(rows, now, w) <==> |winners| == 1;
  }

  /** The resolver meets its specification on every list of rows. */
  lemma ResolveMeetsSpec(policies: seq<Policy>, now: int)
    ensures ResolvesTo(multiset(policies), now, ResolvePolicies(policies, now))
  {
    var inEffect := InEffect(policies, now);
    ScopeMembers(policies, now, DeviceScope);
    ScopeMembers(policies, now, DeviceTypeScope);
    ScopeMembers(policies, now, GlobalScope);
    assert SCOPE_PRECEDENCE[1..] == [DeviceTypeScope, GlobalScope];
    assert SCOPE_PRECEDENCE[1..][1..] == [GlobalScope];
    var byType := ResolveAtScopes(inEffect, [DeviceTypeScope, GlobalScope]);
    var globally := ResolveAtScopes(inEffect, [GlobalScope]);
    assert AtScope(inEffect, DeviceScope) == [] ==> ResolvePolicies(policies, now) == byType;
    assert AtScope(inEffect, DeviceTypeScope) == [] ==> byType == globally;
    assert AtScope(inEffect, GlobalScope) == [] ==> globally == ResolveAtScopes(inEffect, [GlobalScope][1..]);
    if AtScope(inEffect, DeviceScope) != [] {
      ScopeDecides(policies, now, DeviceScope);
    } else if AtScope(inEffect, DeviceTypeScope) != [] {
      ScopeDecides(policies, now, DeviceTypeScope);
    } else if AtScope(inEffect, GlobalScope) != [] {
      ScopeDecides(policies, now, GlobalScope);
    } else {
      forall p | p in multiset(policies)
        ensures !IsInEffect(p, now)
      {
        assert p in policies;
        assert p.def.scope == DeviceScope || p.def.scope == DeviceTypeScope || p.def.scope == GlobalScope;
      }
    }
  }

  /** At most one answer meets the specification. */
  lemma SpecIsUnique(rows: multiset<Policy>, now: int, r: Resolution, s: Resolution)
    requires ResolvesTo(rows, now, r) && ResolvesTo(rows, now, s)
    ensures r == s
  {
  }

  /** Hence the outcome depends only on the bag of rows, never on their order. */
  lemma ResolveIgnoresOrder(a: seq<Policy>, b: seq<Policy>, now: int)
    requires multiset(a) == multiset(b)
    ensures ResolvePolicies(a, now) == ResolvePolicies(b, now)
  {
    ResolveMeetsSpec(a, now);
    ResolveMeetsSpec(b, now);
    SpecIsUnique(multiset(a), now, ResolvePolicies(a, now), ResolvePolicies(b, now));
  }

  /** A policy in effect at a wider scope, or below the best priority, changes
      nothing: adding it to the rows leaves the resolution as it is. */
  lemma LowerRankedRowIsIgnored(rows: seq<Policy>, extra: Policy, best: Policy, now: int)
    requires best in rows && IsInEffect(best, now) && Outranks(best, extra)
    ensures ResolvePolicies(rows + [extra], now) == ResolvePolicies(rows, now)
  {
    var bag, more := multiset(rows), multiset(rows + [extra]);
    assert more == bag + multiset{extra};
    assert forall p :: Top(bag, now, p) <==> Top(more, now, p) by {
      forall p
        ensures Top(bag, now, p) <==> Top(more, now, p)
      {
        assert forall q :: q in more <==> q in bag || q == extra;
        if Top(more, now, p) {
          assert !Outranks(best, p);
        }
        if Top(bag, now, p) {
          assert !Outranks(best, p);
        }
      }
    }
    assert !Top(more, now, extra);
    assert forall p :: p != extra ==> more[p] == bag[p];
    assert forall p :: OnlyTop(bag, now, p) <==> OnlyTop(more, now, p);
    ResolveMeetsSpec(rows, now);
    ResolveMeetsSpec(rows + [extra], now);
    SpecIsUnique(bag, now, ResolvePolicies(rows, now), ResolvePolicies(rows + [extra], now));
  }
}
