/** The limiter behind the two endpoints: how many requests of one device get past it
    over a whole run, with every other user of the limiter in between. */
module Quota {
  import opened Wrappers
  import opened Tables
  import opened Policies
  import opened DeviceAuth
  import opened Firmware
  import opened RateLimiting
  import opened Ota
  import opened World

  /* ----- which limiter call a request makes ----- */

  function SurfaceOf(op: Op): string
    requires op.Poll? || op.Download?
  {
    if op.Poll? then MANIFEST_SURFACE else FIRMWARE_SURFACE
  }

  function LimitOf(surface: string): RateLimit {
    if surface == MANIFEST_SURFACE then MANIFEST_RATE_LIMIT else FIRMWARE_RATE_LIMIT
  }

  /** An authenticated request of the device on this surface. */
  ghost predicate IsRequest(hash: string -> string, db: Db, op: Op, surface: string, id: int) {
    (op.Poll? || op.Download?) && SurfaceOf(op) == surface && Identify(db, hash, op.req.credentials) == Success(id)
  }

  /** A key of some other surface, such as an administrator's. */
  ghost predicate IsForeign(key: string) {
    forall id :: key != LimiterKey(MANIFEST_SURFACE, id) && key != LimiterKey(FIRMWARE_SURFACE, id)
  }

  function AfterCall(threshold: nat, windows: Windows, call: Option<Call>): Windows {
    if call.None? then windows
    else Step(threshold, windows, call.value.now, call.value.key, call.value.limit).0
  }

  /** A run of the service beside its limiter: the clock reading of each call, the
      window tables in between, and the limiter call that each call makes, if any. */
  datatype Metered = Metered(clocks: seq<real>, windows: seq<Windows>, calls: seq<Option<Call>>)

  /** An authenticated request asks the limiter once, for its own surface and device,
      and gets its answer; any other call may ask it for a foreign key. */
  ghost predicate Meters(
    hash: string -> string, threshold: nat, worlds: seq<World>, ops: seq<Op>, m: Metered, k: nat)
    requires |worlds| == |ops| + 1 == |m.windows| && |m.clocks| == |m.calls| == |ops| && k < |ops|
  {
    var op, call := ops[k], m.calls[k];
    && (call.Some? ==> call.value.now == m.clocks[k])
    && m.windows[k + 1] == AfterCall(threshold, m.windows[k], call)
    && if (op.Poll? || op.Download?) && Identify(worlds[k].db, hash, op.req.credentials).Success? then
         var id := Identify(worlds[k].db, hash, op.req.credentials).value;
         var limit := LimitOf(SurfaceOf(op));
         && call == Some(Call(m.clocks[k], LimiterKey(SurfaceOf(op), id), limit))
         && op.allowed == Step(threshold, m.windows[k], m.clocks[k], LimiterKey(SurfaceOf(op), id), limit).1
       else call.Some? ==> IsForeign(call.value.key)
  }

  ghost predicate MeteredRun(
    cfg: Config, hash: string -> string, threshold: nat, worlds: seq<World>, ops: seq<Op>, m: Metered)
  {
    && IsRun(cfg, hash, worlds, ops) && worlds[0] == INITIAL
    && |m.windows| == |worlds| && |m.clocks| == |m.calls| == |ops| && m.windows[0] == map[]
    && (forall i, j :: 0 <= i <= j < |m.clocks| ==> m.clocks[i] <= m.clocks[j])
    && forall k: nat :: k < |ops| ==> Meters(hash, threshold, worlds, ops, m, k)
  }

  /** The limiter calls made from call `k` on. */
  function MadeFrom(calls: seq<Option<Call>>, k: nat): seq<Call>
    requires k <= |calls|
    decreases |calls| - k
  {
    if k == |calls| then []
    else if calls[k].None? then MadeFrom(calls, k + 1)
    else [calls[k].value] + MadeFrom(calls, k + 1)
  }

  /** How many requests of the device on the surface, from call `k` on and at readings
      in `[lo, hi)`, are answered other than 429. */
  ghost function PastLimiter(
    hash: string -> string, worlds: seq<World>, ops: seq<Op>, clocks: seq<real>,
    surface: string, id: int, lo: real, hi: real, k: nat): nat
    requires |worlds| == |ops| + 1 && |clocks| == |ops| && k <= |ops|
    decreases |ops| - k
  {
    if k == |ops| then 0
    else
      (if IsRequest(hash, worlds[k].db, ops[k], surface, id) && !ops[k].response.RateLimited? && lo <= clocks[k] < hi
       then 1 else 0)
      + PastLimiter(hash, worlds, ops, clocks, surface, id, lo, hi, k + 1)
  }

  /* ----- one call ----- */

  /** An authenticated poll is answered 429 exactly when the limiter refuses it. */
  lemma PollRefused(
    hash: string -> string, db: Db, objects: Objects, req: Request, allowed: bool, now: int, reachable: bool,
    next: Db, response: Response)
    requires PoliciesSound(db) && SerialsUnique(db) && Identify(db, hash, req.credentials).Success?
    requires Polls(hash, db, objects, req, allowed, now, reachable, next, response)
    ensures response.RateLimited? <==> !allowed
  {
    IdentifyIsProof(db, hash, req.credentials);
  }

  lemma DownloadRefused(
    hash: string -> string, db: Db, objects: Objects, req: Request, version: string, filename: string,
    allowed: bool, now: int, reachable: bool, next: Db, response: Response)
    requires PoliciesSound(db) && SerialsUnique(db) && Identify(db, hash, req.credentials).Success?
    requires Downloads(hash, db, objects, req, version, filename, allowed, now, reachable, next, response)
    ensures response.RateLimited? <==> !allowed
  {
    IdentifyIsProof(db, hash, req.credentials);
  }

  lemma RequestRefused(
    cfg: Config, hash: string -> string, worlds: seq<World>, ops: seq<Op>, k: nat, surface: string, id: int)
    requires IsRun(cfg, hash, worlds, ops) && k < |ops| && IsRequest(hash, worlds[k].db, ops[k], surface, id)
    ensures ops[k].response.RateLimited? <==> !ops[k].allowed
  {
    assert StepAt(cfg, hash, worlds, ops, k);
    var w, op := worlds[k], ops[k];
    if op.Poll? {
      PollRefused(hash, w.db, w.objects, op.req, op.allowed, op.now, op.reachable, worlds[k + 1].db, op.response);
    } else {
      DownloadRefused(hash, w.db, w.objects, op.req, op.version, op.filename, op.allowed, op.now, op.reachable,
                      worlds[k + 1].db, op.response);
    }
  }

  ghost predicate IsSurface(surface: string) {
    surface == MANIFEST_SURFACE || surface == FIRMWARE_SURFACE
  }

  /** Call `k` is let past as a request of the device on the surface iff it made a
      limiter call for their key, under the surface's limit, that was allowed. */
  ghost predicate Matches(
    hash: string -> string, threshold: nat, worlds: seq<World>, ops: seq<Op>, m: Metered,
    surface: string, id: int, k: nat)
    requires |worlds| == |ops| + 1 == |m.windows| && |m.clocks| == |m.calls| == |ops| && k < |ops|
  {
    var call, key := m.calls[k], LimiterKey(surface, id);
    && (call.Some? ==> call.value.now == m.clocks[k])
    && (call.Some? && call.value.key == key ==> call.value.limit == LimitOf(surface))
    && m.windows[k + 1] == AfterCall(threshold, m.windows[k], call)
    && (IsRequest(hash, worlds[k].db, ops[k], surface, id) && !ops[k].response.RateLimited?
        <==> && call.Some? && call.value.key == key
             && Step(threshold, m.windows[k], call.value.now, call.value.key, call.value.limit).1)
  }

  lemma CallMatches(
    cfg: Config, hash: string -> string, threshold: nat, worlds: seq<World>, ops: seq<Op>, m: Metered,
    surface: string, id: int, k: nat)
    requires MeteredRun(cfg, hash, threshold, worlds, ops, m) && k < |ops| && IsSurface(surface)
    ensures Matches(hash, threshold, worlds, ops, m, surface, id, k)
  {
    assert Meters(hash, threshold, worlds, ops, m, k);
    if IsRequest(hash, worlds[k].db, ops[k], surface, id) {
      RequestRefused(cfg, hash, worlds, ops, k, surface, id);
    }
    MeteredMatches(hash, threshold, worlds, ops, m, surface, id, k);
  }

  lemma MeteredMatches(
    hash: string -> string, threshold: nat, worlds: seq<World>, ops: seq<Op>, m: Metered,
    surface: string, id: int, k: nat)
    requires |worlds| == |ops| + 1 == |m.windows| && |m.clocks| == |m.calls| == |ops| && k < |ops|
    requires Meters(hash, threshold, worlds, ops, m, k) && IsSurface(surface)
    requires IsRequest(hash, worlds[k].db, ops[k], surface, id) ==>
               (ops[k].response.RateLimited? <==> !ops[k].allowed)
    ensures Matches(hash, threshold, worlds, ops, m, surface, id, k)
  {
    var op := ops[k];
    if (op.Poll? || op.Download?) && Identify(worlds[k].db, hash, op.req.credentials).Success? {
      var who := Identify(worlds[k].db, hash, op.req.credentials).value;
      if LimiterKey(SurfaceOf(op), who) == LimiterKey(surface, id) {
        LimiterKeysAreInjective(SurfaceOf(op), who, surface, id);
      }
    }
  }

  /* ----- the whole run ----- */

  lemma {:induction false} MadeIsMonotone(m: Metered, k: nat, since: real)
    requires |m.clocks| == |m.calls| && k <= |m.calls|
    requires forall i, j :: 0 <= i <= j < |m.clocks| ==> m.clocks[i] <= m.clocks[j]
    requires forall i: nat :: i < |m.calls| && m.calls[i].Some? ==> m.calls[i].value.now == m.clocks[i]
    requires k < |m.clocks| ==> since <= m.clocks[k]
    ensures Monotone(MadeFrom(m.calls, k), since)
    decreases |m.calls| - k
  {
    if k < |m.calls| {
      if m.calls[k].None? {
        MadeIsMonotone(m, k + 1, since);
      } else {
        MadeIsMonotone(m, k + 1, m.clocks[k]);
        assert MadeFrom(m.calls, k)[1..] == MadeFrom(m.calls, k + 1);
      }
    }
  }

  lemma {:induction false} MadeUnderLimit(calls: seq<Option<Call>>, k: nat, key: string, limit: RateLimit)
    requires k <= |calls|
    requires forall i: nat :: i < |calls| && calls[i].Some? && calls[i].value.key == key ==>
               calls[i].value.limit == limit
    ensures LimitFor(MadeFrom(calls, k), key, limit)
    decreases |calls| - k
  {
    if k < |calls| {
      MadeUnderLimit(calls, k + 1, key, limit);
    }
  }

  lemma MadeUnfolds(
    threshold: nat, windows: Windows, calls: seq<Option<Call>>, k: nat, key: string, lo: real, hi: real)
    requires k < |calls|
    ensures
      var call := calls[k];
      RateLimiting.Admitted(threshold, windows, MadeFrom(calls, k), key, lo, hi)
      == (if && call.Some? && Step(threshold, windows, call.value.now, call.value.key, call.value.limit).1
             && call.value.key == key && lo <= call.value.now < hi then 1 else 0)
         + RateLimiting.Admitted(threshold, AfterCall(threshold, windows, call), MadeFrom(calls, k + 1), key, lo, hi)
  {
    if calls[k].Some? {
      assert MadeFrom(calls, k)[1..] == MadeFrom(calls, k + 1);
    }
  }

  ghost predicate AllMatch(
    hash: string -> string, threshold: nat, worlds: seq<World>, ops: seq<Op>, m: Metered, surface: string, id: int)
  {
    && |worlds| == |ops| + 1 == |m.windows| && |m.clocks| == |m.calls| == |ops|
    && forall k: nat :: k < |ops| ==> Matches(hash, threshold, worlds, ops, m, surface, id, k)
  }

  lemma {:induction false} PastLimiterIsAdmitted(
    hash: string -> string, threshold: nat, worlds: seq<World>, ops: seq<Op>, m: Metered,
    surface: string, id: int, lo: real, hi: real, k: nat)
    requires AllMatch(hash, threshold, worlds, ops, m, surface, id) && k <= |ops|
    ensures PastLimiter(hash, worlds, ops, m.clocks, surface, id, lo, hi, k)
            == RateLimiting.Admitted(threshold, m.windows[k], MadeFrom(m.calls, k), LimiterKey(surface, id), lo, hi)
    decreases |ops| - k
  {
    if k < |ops| {
      PastLimiterIsAdmitted(hash, threshold, worlds, ops, m, surface, id, lo, hi, k + 1);
      assert Matches(hash, threshold, worlds, ops, m, surface, id, k);
      MadeUnfolds(threshold, m.windows[k], m.calls, k, LimiterKey(surface, id), lo, hi);
    }
  }

  /** The quota holds at the endpoints: within any `n` times five minutes no device gets
      more than `(n + 1) * 20 - 1` polls past the limiter, and within any `n` quarters of
      an hour no more than `(n + 1) * 10 - 1` downloads, whatever other devices, the other
      surface, administrators and sweeps do. */
  lemma QuotaHolds(
    cfg: Config, hash: string -> string, threshold: nat, worlds: seq<World>, ops: seq<Op>, m: Metered,
    surface: string, id: int, lo: real, n: nat)
    requires MeteredRun(cfg, hash, threshold, worlds, ops, m) && (surface == "manifest" || surface == "firmware")
    ensures surface == "manifest" ==>
              PastLimiter(hash, worlds, ops, m.clocks, surface, id, lo, lo + (n * 300) as real, 0) <= (n + 1) * 20 - 1
    ensures surface == "firmware" ==>
              PastLimiter(hash, worlds, ops, m.clocks, surface, id, lo, lo + (n * 900) as real, 0) <= (n + 1) * 10 - 1
  {
    forall k: nat | k < |ops|
      ensures Matches(hash, threshold, worlds, ops, m, surface, id, k)
    {
      CallMatches(cfg, hash, threshold, worlds, ops, m, surface, id, k);
    }
    MatchedQuota(hash, threshold, worlds, ops, m, surface, id, lo, n);
  }

  lemma MatchedQuota(
    hash: string -> string, threshold: nat, worlds: seq<World>, ops: seq<Op>, m: Metered,
    surface: string, id: int, lo: real, n: nat)
    requires AllMatch(hash, threshold, worlds, ops, m, surface, id) && m.windows[0] == map[]
    requires forall i, j :: 0 <= i <= j < |m.clocks| ==> m.clocks[i] <= m.clocks[j]
    ensures
      var limit := LimitOf(surface);
      PastLimiter(hash, worlds, ops, m.clocks, surface, id, lo, lo + (n * limit.windowSeconds) as real, 0)
      <= (n + 1) * limit.limit - 1
  {
    var limit, key := LimitOf(surface), LimiterKey(surface, id);
    var calls, since := MadeFrom(m.calls, 0), if |ops| == 0 then 0.0 else m.clocks[0];
    MadeIsRun(hash, threshold, worlds, ops, m, surface, id, since);
    RateBound(threshold, calls, key, limit, lo, since, n);
    PastLimiterIsAdmitted(hash, threshold, worlds, ops, m, surface, id, lo, lo + (n * limit.windowSeconds) as real, 0);
  }

  lemma MadeIsRun(
    hash: string -> string, threshold: nat, worlds: seq<World>, ops: seq<Op>, m: Metered,
    surface: string, id: int, since: real)
    requires AllMatch(hash, threshold, worlds, ops, m, surface, id)
    requires forall i, j :: 0 <= i <= j < |m.clocks| ==> m.clocks[i] <= m.clocks[j]
    requires |ops| > 0 ==> since <= m.clocks[0]
    ensures Monotone(MadeFrom(m.calls, 0), since)
    ensures LimitFor(MadeFrom(m.calls, 0), LimiterKey(surface, id), LimitOf(surface))
  {
    forall k: nat | k < |ops| && m.calls[k].Some?
      ensures m.calls[k].value.now == m.clocks[k]
      ensures m.calls[k].value.key == LimiterKey(surface, id) ==> m.calls[k].value.limit == LimitOf(surface)
    {
      assert Matches(hash, threshold, worlds, ops, m, surface, id, k);
    }
    MadeIsMonotone(m, 0, since);
    MadeUnderLimit(m.calls, 0, LimiterKey(surface, id), LimitOf(surface));
  }

  /* ----- who is refused ----- */

  /** How many requests of the device on the surface, among the first `k` calls and at
      readings from `lo` on, were answered other than 429. */
  ghost function PastBefore(
    hash: string -> string, worlds: seq<World>, ops: seq<Op>, clocks: seq<real>,
    surface: string, id: int, lo: real, k: nat): nat
    requires |worlds| == |ops| + 1 && |clocks| == |ops| && k <= |ops|
    decreases k
  {
    if k == 0 then 0
    else
      PastBefore(hash, worlds, ops, clocks, surface, id, lo, k - 1)
      + (if && IsRequest(hash, worlds[k - 1].db, ops[k - 1], surface, id) && !ops[k - 1].response.RateLimited?
            && lo <= clocks[k - 1] then 1 else 0)
  }

  /* The same with all but the limiter left out: which calls got through. */

  function CountFrom(through: seq<bool>, clocks: seq<real>, lo: real, k: nat): nat
    requires |through| == |clocks| && k <= |clocks|
  {
    if k == 0 then 0
    else CountFrom(through, clocks, lo, k - 1) + if through[k - 1] && lo <= clocks[k - 1] then 1 else 0
  }

  lemma {:induction false} EarlierCountsMore(through: seq<bool>, clocks: seq<real>, lo: real, later: real, k: nat)
    requires |through| == |clocks| && k <= |clocks| && lo <= later
    ensures CountFrom(through, clocks, later, k) <= CountFrom(through, clocks, lo, k)
  {
    if k > 0 {
      EarlierCountsMore(through, clocks, lo, later, k - 1);
    }
  }

  /** Call `k` asks for the key, under its limit, or for another one; it gets through iff
      it asks for the key and is allowed. */
  ghost predicate Tallies(threshold: nat, m: Metered, through: seq<bool>, key: string, limit: RateLimit, k: nat)
    requires |m.windows| == |m.clocks| + 1 && |m.calls| == |through| == |m.clocks| && k < |m.clocks|
  {
    var call := m.calls[k];
    && (call.Some? ==> call.value.now == m.clocks[k])
    && (call.Some? && call.value.key == key ==> call.value.limit == limit)
    && m.windows[k + 1] == AfterCall(threshold, m.windows[k], call)
    && (through[k] <==> && call.Some? && call.value.key == key
                        && Step(threshold, m.windows[k], call.value.now, call.value.key, call.value.limit).1)
  }

  /** What a window has counted, up to the limit, are calls that got through since it
      opened. */
  ghost predicate CountIsEarned(m: Metered, through: seq<bool>, key: string, limit: RateLimit, k: nat)
    requires |m.windows| == |m.clocks| + 1 && |through| == |m.clocks| && k <= |m.clocks|
  {
    key in m.windows[k] ==>
      var entry := m.windows[k][key];
      var start := entry.expiresAt - limit.windowSeconds as real;
      && (k < |m.clocks| ==> start <= m.clocks[k])
      && var counted := CountFrom(through, m.clocks, start, k);
         entry.count <= counted || limit.limit <= counted
  }

  lemma OtherKeyStays(threshold: nat, windows: Windows, c: Call, key: string)
    requires c.key != key
    ensures
      var next := Step(threshold, windows, c.now, c.key, c.limit).0;
      key in next ==> key in windows && next[key] == windows[key]
  {
  }

  lemma CallKeepsCount(threshold: nat, m: Metered, through: seq<bool>, key: string, limit: RateLimit, k: nat)
    requires |m.windows| == |m.clocks| + 1 && |m.calls| == |through| == |m.clocks| && 0 < k <= |m.clocks|
    requires Tallies(threshold, m, through, key, limit, k - 1)
    requires k < |m.clocks| ==> m.clocks[k - 1] <= m.clocks[k]
    requires CountIsEarned(m, through, key, limit, k - 1)
    ensures CountIsEarned(m, through, key, limit, k)
  {
    var call := m.calls[k - 1];
    if call.Some? {
      if call.value.key == key {
        StepOnKey(threshold, m.windows[k - 1], call.value, key);
      } else {
        OtherKeyStays(threshold, m.windows[k - 1], call.value, key);
      }
    }
  }

  ghost predicate AllTally(threshold: nat, m: Metered, through: seq<bool>, key: string, limit: RateLimit) {
    && |m.windows| == |m.clocks| + 1 && |m.calls| == |through| == |m.clocks| && m.windows[0] == map[]
    && (forall i, j :: 0 <= i <= j < |m.clocks| ==> m.clocks[i] <= m.clocks[j])
    && forall k: nat :: k < |m.clocks| ==> Tallies(threshold, m, through, key, limit, k)
  }

  lemma {:induction false} CountsAreEarned(
    threshold: nat, m: Metered, through: seq<bool>, key: string, limit: RateLimit, k: nat)
    requires AllTally(threshold, m, through, key, limit) && k <= |m.clocks|
    ensures CountIsEarned(m, through, key, limit, k)
  {
    if k > 0 {
      CountsAreEarned(threshold, m, through, key, limit, k - 1);
      assert Tallies(threshold, m, through, key, limit, k - 1);
      CallKeepsCount(threshold, m, through, key, limit, k);
    }
  }

  /** So a call for the key that is refused comes after a limit's worth of such calls that
      got through within one window's length. */
  lemma RefusedIsSpent(threshold: nat, m: Metered, through: seq<bool>, key: string, limit: RateLimit, k: nat)
    requires AllTally(threshold, m, through, key, limit) && k < |m.clocks|
    requires m.calls[k].Some? && m.calls[k].value.key == key && !through[k]
    ensures limit.limit <= CountFrom(through, m.clocks, m.clocks[k] - limit.windowSeconds as real, k)
  {
    assert Tallies(threshold, m, through, key, limit, k);
    CountsAreEarned(threshold, m, through, key, limit, k);
    StepOnKey(threshold, m.windows[k], m.calls[k].value, key);
    assert Live(m.windows[k], key, m.clocks[k]);
    EarlierCountsMore(through, m.clocks, m.clocks[k] - limit.windowSeconds as real,
                      m.windows[k][key].expiresAt - limit.windowSeconds as real, k);
  }

  /** Call `k` is a request of the device on the surface that gets past the limiter. */
  ghost predicate GetsThrough(
    hash: string -> string, worlds: seq<World>, ops: seq<Op>, surface: string, id: int, k: nat)
    requires |worlds| == |ops| + 1 && k < |ops|
  {
    IsRequest(hash, worlds[k].db, ops[k], surface, id) && !ops[k].response.RateLimited?
  }

  ghost function Through(hash: string -> string, worlds: seq<World>, ops: seq<Op>, surface: string, id: int)
    : (through: seq<bool>)
    requires |worlds| == |ops| + 1
    ensures |through| == |ops|
    ensures forall k: nat :: k < |ops| ==> (through[k] <==> GetsThrough(hash, worlds, ops, surface, id, k))
  {
    seq(|ops|, k requires 0 <= k < |ops| => GetsThrough(hash, worlds, ops, surface, id, k))
  }

  lemma {:induction false} PastIsCount(
    hash: string -> string, worlds: seq<World>, ops: seq<Op>, clocks: seq<real>,
    surface: string, id: int, lo: real, k: nat)
    requires |worlds| == |ops| + 1 && |clocks| == |ops| && k <= |ops|
    ensures PastBefore(hash, worlds, ops, clocks, surface, id, lo, k)
            == CountFrom(Through(hash, worlds, ops, surface, id), clocks, lo, k)
  {
    if k > 0 {
      PastIsCount(hash, worlds, ops, clocks, surface, id, lo, k - 1);
      assert GetsThrough(hash, worlds, ops, surface, id, k - 1)
        <==> Through(hash, worlds, ops, surface, id)[k - 1];
    }
  }

  lemma RunTallies(
    cfg: Config, hash: string -> string, threshold: nat, worlds: seq<World>, ops: seq<Op>, m: Metered,
    surface: string, id: int)
    requires MeteredRun(cfg, hash, threshold, worlds, ops, m) && IsSurface(surface)
    ensures AllTally(threshold, m, Through(hash, worlds, ops, surface, id), LimiterKey(surface, id), LimitOf(surface))
  {
    var through := Through(hash, worlds, ops, surface, id);
    forall k: nat | k < |ops|
      ensures Tallies(threshold, m, through, LimiterKey(surface, id), LimitOf(surface), k)
    {
      CallMatches(cfg, hash, threshold, worlds, ops, m, surface, id, k);
      assert through[k] <==> GetsThrough(hash, worlds, ops, surface, id, k);
    }
  }

  lemma RequestIsMetered(
    cfg: Config, hash: string -> string, threshold: nat, worlds: seq<World>, ops: seq<Op>, m: Metered,
    surface: string, id: int, k: nat)
    requires MeteredRun(cfg, hash, threshold, worlds, ops, m)
    requires k < |ops| && IsRequest(hash, worlds[k].db, ops[k], surface, id)
    ensures m.calls[k].Some? && m.calls[k].value.key == LimiterKey(surface, id)
  {
    assert Meters(hash, threshold, worlds, ops, m, k);
  }

  lemma RefusedAt(
    hash: string -> string, threshold: nat, worlds: seq<World>, ops: seq<Op>, m: Metered,
    surface: string, id: int, k: nat)
    requires |worlds| == |ops| + 1 == |m.windows| && |m.clocks| == |m.calls| == |ops| && k < |ops|
    requires AllTally(threshold, m, Through(hash, worlds, ops, surface, id), LimiterKey(surface, id), LimitOf(surface))
    requires m.calls[k].Some? && m.calls[k].value.key == LimiterKey(surface, id)
    requires !GetsThrough(hash, worlds, ops, surface, id, k)
    ensures
      var limit := LimitOf(surface);
      limit.limit
      <= PastBefore(hash, worlds, ops, m.clocks, surface, id, m.clocks[k] - limit.windowSeconds as real, k)
  {
    var through, limit := Through(hash, worlds, ops, surface, id), LimitOf(surface);
    RefusedIsSpent(threshold, m, through, LimiterKey(surface, id), limit, k);
    PastIsCount(hash, worlds, ops, m.clocks, surface, id, m.clocks[k] - limit.windowSeconds as real, k);
  }

  lemma OwnRequestsSpent(
    cfg: Config, hash: string -> string, threshold: nat, worlds: seq<World>, ops: seq<Op>, m: Metered,
    surface: string, id: int, k: nat)
    requires MeteredRun(cfg, hash, threshold, worlds, ops, m) && IsSurface(surface) && k < |ops|
    requires IsRequest(hash, worlds[k].db, ops[k], surface, id) && !GetsThrough(hash, worlds, ops, surface, id, k)
    ensures
      var limit := LimitOf(surface);
      limit.limit
      <= PastBefore(hash, worlds, ops, m.clocks, surface, id, m.clocks[k] - limit.windowSeconds as real, k)
  {
    RunTallies(cfg, hash, threshold, worlds, ops, m, surface, id);
    RequestIsMetered(cfg, hash, threshold, worlds, ops, m, surface, id, k);
    RefusedAt(hash, threshold, worlds, ops, m, surface, id, k);
  }

  /** Nobody spends another's quota. In every run a poll is answered 429 only if twenty
      polls of that very device got past the limiter within the last 300 seconds, and a
      download only if ten of its downloads did within the last 900. */
  lemma OnlyOwnRequestsCount(
    cfg: Config, hash: string -> string, threshold: nat, worlds: seq<World>, ops: seq<Op>, m: Metered,
    surface: string, id: int, k: nat)
    requires MeteredRun(cfg, hash, threshold, worlds, ops, m) && (surface == "manifest" || surface == "firmware")
    requires k < |ops| && IsRequest(hash, worlds[k].db, ops[k], surface, id) && ops[k].response.RateLimited?
    ensures surface == "manifest" ==>
              20 <= PastBefore(hash, worlds, ops, m.clocks, surface, id, m.clocks[k] - 300.0, k)
    ensures surface == "firmware" ==>
              10 <= PastBefore(hash, worlds, ops, m.clocks, surface, id, m.clocks[k] - 900.0, k)
  {
    OwnRequestsSpent(cfg, hash, threshold, worlds, ops, m, surface, id, k);
  }
}
