/** Fixed-window rate limiting with garbage collection (app/services/rate_limit.py).
    Clock readings are reals; the lock makes each call one step. */
module RateLimiting {
  import opened Wrappers

  datatype RateLimit = RateLimit(limit: nat, windowSeconds: int)

  const SWEEP_THRESHOLD: nat := 10_000

  const MANIFEST_RATE_LIMIT := RateLimit(20, 300)
  const FIRMWARE_RATE_LIMIT := RateLimit(10, 900)

  datatype Entry = Entry(expiresAt: real, count: nat)

  type Windows = map<string, Entry>

  /* ----- one call, as a function of the window table ----- */

  function Swept(windows: Windows, now: real): Windows {
    map key | key in windows && windows[key].expiresAt > now :: windows[key]
  }

  predicate Live(windows: Windows, key: string, now: real) {
    key in windows && now < windows[key].expiresAt
  }

  /** The limiter that never sweeps. */
  function Count(windows: Windows, now: real, key: string, limit: RateLimit): (Windows, bool) {
    if Live(windows, key, now) then
      var entry := Entry(windows[key].expiresAt, windows[key].count + 1);
      (windows[key := entry], entry.count <= limit.limit)
    else
      (windows[key := Entry(now + limit.windowSeconds as real, 1)], true)
  }

  function Step(threshold: nat, windows: Windows, now: real, key: string, limit: RateLimit): (Windows, bool) {
    Count(if |windows| > threshold then Swept(windows, now) else windows, now, key, limit)
  }

  class InMemoryRateLimiter {
    const threshold: nat
    var windows: Windows

    constructor (threshold: nat := SWEEP_THRESHOLD)
      ensures windows == map[] && this.threshold == threshold
    {
      this.threshold := threshold;
      windows := map[];
    }

    method Allow(now: real, key: string, limit: RateLimit) returns (allowed: bool)
      modifies this
      ensures (windows, allowed) == Step(threshold, old(windows), now, key, limit)
    {
      if |windows| > threshold {
        Sweep(now);
      }
      if key !in windows || now >= windows[key].expiresAt {
        windows := windows[key := Entry(now + limit.windowSeconds as real, 1)];
        return true;
      }
      var count := windows[key].count + 1;
      windows := windows[key := Entry(windows[key].expiresAt, count)];
      return count <= limit.limit;
    }

    method Sweep(now: real)
      modifies this
      ensures windows == Swept(old(windows), now)
    {
      var expired := set key | key in windows && windows[key].expiresAt <= now;
      while expired != {}
        invariant forall key :: key in expired ==> key in windows && windows[key].expiresAt <= now
        invariant forall key :: key in windows ==> key in old(windows) && windows[key] == old(windows)[key]
        invariant forall key :: key in old(windows) ==>
                    key in windows || old(windows)[key].expiresAt <= now
        invariant forall key :: key in windows && windows[key].expiresAt <= now ==> key in expired
        decreases expired
      {
        var key := PickAny(expired);
        windows := windows - {key};
        expired := expired - {key};
      }
    }
  }

  /* ----- runs ----- */

  datatype Call = Call(now: real, key: string, limit: RateLimit)

  /** Clock readings do not go back, in lock order. */
  ghost predicate Monotone(calls: seq<Call>, since: real)
    decreases calls
  {
    calls == [] || (since <= calls[0].now && Monotone(calls[1..], calls[0].now))
  }

  function Answers(threshold: nat, windows: Windows, calls: seq<Call>): seq<bool>
    decreases calls
  {
    if calls == [] then []
    else
      var (next, allowed) := Step(threshold, windows, calls[0].now, calls[0].key, calls[0].limit);
      [allowed] + Answers(threshold, next, calls[1..])
  }

  function PlainAnswers(windows: Windows, calls: seq<Call>): seq<bool>
    decreases calls
  {
    if calls == [] then []
    else
      var (next, allowed) := Count(windows, calls[0].now, calls[0].key, calls[0].limit);
      [allowed] + PlainAnswers(next, calls[1..])
  }

  /** The swept table lacks only entries that have expired by `now`. */
  ghost predicate Refines(windows: Windows, plain: Windows, now: real) {
    && (forall key :: key in windows ==> key in plain && plain[key] == windows[key])
    && (forall key :: key in plain && key !in windows ==> plain[key].expiresAt <= now)
  }

  /** Garbage collection is invisible: at any threshold, every call in every run is
      answered as by the limiter that never sweeps. */
  lemma {:induction false} SweepIsInvisible(
    threshold: nat, windows: Windows, plain: Windows, calls: seq<Call>, since: real)
    requires Refines(windows, plain, since) && Monotone(calls, since)
    ensures Answers(threshold, windows, calls) == PlainAnswers(plain, calls)
    decreases calls
  {
    if calls != [] {
      var c := calls[0];
      var (next, _) := Step(threshold, windows, c.now, c.key, c.limit);
      var (plainNext, _) := Count(plain, c.now, c.key, c.limit);
      SweepIsInvisible(threshold, next, plainNext, calls[1..], c.now);
    }
  }

  /** Monotone readings cannot be dropped: a reading that goes back past a sweep
      is answered differently. */
  lemma SweepNeedsMonotoneClock()
    ensures exists calls ::
              Answers(0, map[], calls) != PlainAnswers(map[], calls)
  {
    var one := RateLimit(1, 10);
    var a, b, c := Call(0.0, "a", one), Call(10.0, "b", one), Call(9.0, "a", one);
    var calls := [a, b, c];
    assert calls[1..] == [b, c] && [b, c][1..] == [c] && [c][1..] == [];
    var w1: Windows := map["a" := Entry(10.0, 1)];
    assert Count(map[], 0.0, "a", one) == (w1, true);
    var w2: Windows := map["b" := Entry(20.0, 1)];
    assert |w1| == 1;
    assert Swept(w1, 10.0) == map[];
    assert Step(0, w1, 10.0, "b", one) == (w2, true);
    assert Step(0, w2, 9.0, "a", one).1;
    var p2: Windows := map["a" := Entry(10.0, 1), "b" := Entry(20.0, 1)];
    assert Count(w1, 10.0, "b", one) == (p2, true);
    assert !Count(p2, 9.0, "a", one).1;
    assert Answers(0, w2, [c]) == [true];
    assert PlainAnswers(p2, [c]) == [false];
    assert Answers(0, w1, [b, c]) == [true, true];
    assert PlainAnswers(w1, [b, c]) == [true, false];
    assert Answers(0, map[], calls)[2] != PlainAnswers(map[], calls)[2];
  }

  /* ----- keys do not interfere ----- */

  function CallsFor(key: string, calls: seq<Call>): seq<Call> {
    if calls == [] then []
    else if calls[0].key == key then [calls[0]] + CallsFor(key, calls[1..])
    else CallsFor(key, calls[1..])
  }

  function AnswersFor(key: string, calls: seq<Call>, answers: seq<bool>): seq<bool>
    requires |calls| == |answers|
  {
    if calls == [] then []
    else if calls[0].key == key then [answers[0]] + AnswersFor(key, calls[1..], answers[1..])
    else AnswersFor(key, calls[1..], answers[1..])
  }

  lemma {:induction false} AnswersLength(threshold: nat, windows: Windows, plain: Windows, calls: seq<Call>)
    ensures |Answers(threshold, windows, calls)| == |calls| == |PlainAnswers(plain, calls)|
    decreases calls
  {
    if calls != [] {
      var c := calls[0];
      AnswersLength(threshold, Step(threshold, windows, c.now, c.key, c.limit).0,
                    Count(plain, c.now, c.key, c.limit).0, calls[1..]);
    }
  }

  ghost predicate SameEntry(key: string, windows: Windows, other: Windows) {
    && (key in windows <==> key in other)
    && (key in windows ==> windows[key] == other[key])
  }

  lemma {:induction false} PlainKeysIndependent(key: string, windows: Windows, alone: Windows, calls: seq<Call>)
    requires SameEntry(key, windows, alone)
    ensures |PlainAnswers(windows, calls)| == |calls|
    ensures AnswersFor(key, calls, PlainAnswers(windows, calls)) == PlainAnswers(alone, CallsFor(key, calls))
    decreases calls
  {
    AnswersLength(0, windows, windows, calls);
    if calls != [] {
      var c := calls[0];
      var (next, allowed) := Count(windows, c.now, c.key, c.limit);
      assert PlainAnswers(windows, calls)[1..] == PlainAnswers(next, calls[1..]);
      if c.key == key {
        var (aloneNext, _) := Count(alone, c.now, c.key, c.limit);
        PlainKeysIndependent(key, next, aloneNext, calls[1..]);
        assert CallsFor(key, calls)[1..] == CallsFor(key, calls[1..]);
      } else {
        PlainKeysIndependent(key, next, alone, calls[1..]);
      }
    }
  }

  /** What one key is answered depends on the calls for that key alone: the same
      calls made to a fresh limiter get the same answers, sweeps or not. */
  lemma KeysAreIndependent(threshold: nat, key: string, calls: seq<Call>, since: real)
    requires Monotone(calls, since)
    ensures |Answers(threshold, map[], calls)| == |calls|
    ensures AnswersFor(key, calls, Answers(threshold, map[], calls))
            == PlainAnswers(map[], CallsFor(key, calls))
  {
    SweepIsInvisible(threshold, map[], map[], calls, since);
    PlainKeysIndependent(key, map[], map[], calls);
  }

  /* ----- one window ----- */

  lemma {:induction false} InsideWindow(
    windows: Windows, calls: seq<Call>, key: string, limit: RateLimit, since: real, i: nat)
    requires AllFor(calls, key, limit) && Monotone(calls, since) && i < |calls|
    requires key in windows && calls[i].now < windows[key].expiresAt
    ensures |PlainAnswers(windows, calls)| == |calls|
    ensures PlainAnswers(windows, calls)[i] <==> windows[key].count + i < limit.limit
    decreases i
  {
    AnswersLength(0, windows, windows, calls);
    if i > 0 {
      var c := calls[0];
      var next := Count(windows, c.now, c.key, c.limit).0;
      FirstIsEarliest(calls, since, i);
      InsideWindow(next, calls[1..], key, limit, c.now, i - 1);
      assert PlainAnswers(windows, calls)[i] == PlainAnswers(next, calls[1..])[i - 1];
    }
  }

  lemma {:induction false} FirstIsEarliest(calls: seq<Call>, since: real, i: nat)
    requires Monotone(calls, since) && i < |calls|
    ensures since <= calls[0].now <= calls[i].now
    decreases i
  {
    if i > 0 {
      FirstIsEarliest(calls[1..], calls[0].now, i - 1);
    }
  }

  /** A window is exact: of the calls for one key within the window that the first of
      them opens, the limit's worth is let through, first come first served, and every
      further one refused, sweeps or not. */
  lemma WindowIsExact(
    threshold: nat, windows: Windows, calls: seq<Call>, key: string, limit: RateLimit, i: nat)
    requires limit.limit >= 1 && limit.windowSeconds > 0 && AllFor(calls, key, limit)
    requires i < |calls| && Monotone(calls, calls[0].now)
    requires key in windows ==> windows[key].expiresAt <= calls[0].now
    requires calls[i].now < calls[0].now + limit.windowSeconds as real
    ensures |Answers(threshold, windows, calls)| == |calls|
    ensures Answers(threshold, windows, calls)[i] <==> i < limit.limit
  {
    AnswersLength(threshold, windows, windows, calls);
    SweepIsInvisible(threshold, windows, windows, calls, calls[0].now);
    if i > 0 {
      var c := calls[0];
      var next := Count(windows, c.now, c.key, c.limit).0;
      InsideWindow(next, calls[1..], key, limit, c.now, i - 1);
      assert PlainAnswers(windows, calls)[i] == PlainAnswers(next, calls[1..])[i - 1];
    }
  }

  /* ----- the rate over any interval ----- */

  /** How many calls for `key` are let through at readings in `[lo, hi)`. */
  function Admitted(
    threshold: nat, windows: Windows, calls: seq<Call>, key: string, lo: real, hi: real): nat
    decreases calls
  {
    if calls == [] then 0
    else
      var c := calls[0];
      var (next, allowed) := Step(threshold, windows, c.now, c.key, c.limit);
      (if allowed && c.key == key && lo <= c.now < hi then 1 else 0)
      + Admitted(threshold, next, calls[1..], key, lo, hi)
  }

  ghost predicate LimitFor(calls: seq<Call>, key: string, limit: RateLimit) {
    forall i :: 0 <= i < |calls| && calls[i].key == key ==> calls[i].limit == limit
  }

  lemma {:induction false} NothingAfter(
    threshold: nat, windows: Windows, calls: seq<Call>, key: string, lo: real, hi: real, since: real)
    requires Monotone(calls, since) && hi <= since
    ensures Admitted(threshold, windows, calls, key, lo, hi) == 0
    decreases calls
  {
    if calls != [] {
      var c := calls[0];
      NothingAfter(threshold, Step(threshold, windows, c.now, c.key, c.limit).0,
                   calls[1..], key, lo, hi, c.now);
    }
  }

  /** What the window open at `since`, if any, can still let through. */
  function Remaining(windows: Windows, key: string, since: real, limit: nat): nat {
    if Live(windows, key, since) && windows[key].count < limit then limit - windows[key].count else 0
  }

  /** The earliest reading at which a new window can open. */
  function NextOpening(windows: Windows, key: string, since: real): real {
    if Live(windows, key, since) then windows[key].expiresAt else since
  }

  /** The length of `k` windows. */
  function Span(k: nat, w: int): real {
    if k == 0 then 0.0 else w as real + Span(k - 1, w)
  }

  /** What `k` windows may let through. */
  function Allowance(k: nat, limit: nat): nat {
    if k == 0 then 0 else limit + Allowance(k - 1, limit)
  }

  lemma {:induction false} SpanIsProduct(k: nat, w: int, limit: nat)
    ensures Span(k, w) == (k * w) as real && Allowance(k, limit) == k * limit
  {
    if k > 0 {
      SpanIsProduct(k - 1, w, limit);
      assert (k - 1) * w + w == k * w;
      assert (k - 1) * limit + limit == k * limit;
    }
  }

  /** What one call does to the entry of `key`, sweep or no sweep. */
  lemma StepOnKey(threshold: nat, windows: Windows, c: Call, key: string)
    ensures
      var (next, allowed) := Step(threshold, windows, c.now, c.key, c.limit);
      if c.key == key then
        if Live(windows, key, c.now) then
          && key in next
          && next[key] == Entry(windows[key].expiresAt, windows[key].count + 1)
          && allowed == (windows[key].count + 1 <= c.limit.limit)
        else
          && key in next && next[key] == Entry(c.now + c.limit.windowSeconds as real, 1) && allowed
      else if Live(windows, key, c.now) then key in next && next[key] == windows[key]
      else !Live(next, key, c.now)
  {
  }

  /** The charge argument: up to `k` windows open before `hi`, each lets through at
      most the limit, and the open one only its remainder. */
  lemma {:induction false} AdmittedBefore(
    threshold: nat, windows: Windows, calls: seq<Call>, key: string, limit: RateLimit,
    lo: real, hi: real, since: real, k: nat)
    requires limit.limit >= 1 && limit.windowSeconds > 0
    requires LimitFor(calls, key, limit) && Monotone(calls, since)
    requires hi <= NextOpening(windows, key, since) + Span(k, limit.windowSeconds)
    ensures Admitted(threshold, windows, calls, key, lo, hi)
            <= Remaining(windows, key, since, limit.limit) + Allowance(k, limit.limit)
    decreases calls
  {
    if calls != [] {
      var c, rest := calls[0], calls[1..];
      var next := Step(threshold, windows, c.now, c.key, c.limit).0;
      StepOnKey(threshold, windows, c, key);
      LimitForRest(calls, key, limit);
      if c.key != key || Live(windows, key, c.now) {
        AdmittedBefore(threshold, next, rest, key, limit, lo, hi, c.now, k);
      } else if hi <= c.now {
        NothingAfter(threshold, windows, calls, key, lo, hi, c.now);
      } else {
        OpensOne(NextOpening(windows, key, since), c.now, hi, k, limit);
        AdmittedBefore(threshold, next, rest, key, limit, lo, hi, c.now, k - 1);
      }
    }
  }

  lemma OpensOne(opening: real, now: real, hi: real, k: nat, limit: RateLimit)
    requires opening <= now < hi <= opening + Span(k, limit.windowSeconds)
    ensures k > 0
    ensures hi <= now + limit.windowSeconds as real + Span(k - 1, limit.windowSeconds)
    ensures Allowance(k, limit.limit) == limit.limit + Allowance(k - 1, limit.limit)
  {
  }

  lemma LimitForRest(calls: seq<Call>, key: string, limit: RateLimit)
    requires LimitFor(calls, key, limit) && calls != []
    ensures LimitFor(calls[1..], key, limit)
    ensures calls[0].key == key ==> calls[0].limit == limit
  {
  }

  /** Every open window has counted the call that opened it. */
  ghost predicate Counted(windows: Windows) {
    forall key :: key in windows ==> windows[key].count >= 1
  }

  lemma {:induction false} AdmittedWithin(
    threshold: nat, windows: Windows, calls: seq<Call>, key: string, limit: RateLimit,
    lo: real, hi: real, since: real, k: nat)
    requires limit.limit >= 1 && limit.windowSeconds > 0 && Counted(windows)
    requires LimitFor(calls, key, limit) && Monotone(calls, since)
    requires hi <= lo + Span(k, limit.windowSeconds)
    ensures Admitted(threshold, windows, calls, key, lo, hi) <= Allowance(k + 1, limit.limit) - 1
    decreases calls
  {
    if calls != [] {
      var c, rest := calls[0], calls[1..];
      var (next, allowed) := Step(threshold, windows, c.now, c.key, c.limit);
      if c.now < lo {
        LimitForRest(calls, key, limit);
        AdmittedWithin(threshold, next, rest, key, limit, lo, hi, c.now, k);
      } else {
        AdmittedBefore(threshold, windows, calls, key, limit, lo, hi, c.now, k);
      }
    }
  }

  /** Over any half-open interval of `k` windows' length, at most `(k + 1) * limit - 1`
      calls for one key are let through, whatever other keys and sweeps do. */
  lemma RateBound(
    threshold: nat, calls: seq<Call>, key: string, limit: RateLimit, lo: real, since: real, k: nat)
    requires limit.limit >= 1 && limit.windowSeconds > 0
    requires LimitFor(calls, key, limit) && Monotone(calls, since)
    ensures Admitted(threshold, map[], calls, key, lo, lo + (k * limit.windowSeconds) as real)
            <= (k + 1) * limit.limit - 1
  {
    SpanIsProduct(k, limit.windowSeconds, limit.limit);
    SpanIsProduct(k + 1, limit.windowSeconds, limit.limit);
    AdmittedWithin(threshold, map[], calls, key, limit, lo,
                   lo + (k * limit.windowSeconds) as real, since, k);
  }

  /* ----- the bound is attained ----- */

  /** The same call, `n` times. */
  function Burst(n: nat, c: Call): seq<Call> {
    if n == 0 then [] else [c] + Burst(n - 1, c)
  }

  /** A full burst at the start of each of `k` windows, the first opening at `from`. */
  function Train(key: string, limit: RateLimit, from: real, k: nat): seq<Call>
    decreases k
  {
    if k == 0 then []
    else
      Burst(limit.limit, Call(from, key, limit)) + Train(key, limit, from + limit.windowSeconds as real, k - 1)
  }

  /** All calls after the opening one. */
  function Tail(key: string, limit: RateLimit, k: nat): seq<Call>
    requires limit.limit >= 1
  {
    var w := limit.windowSeconds as real;
    Burst(limit.limit - 1, Call(w / 2.0, key, limit)) + Train(key, limit, w, k)
  }

  /** One call opens a window, the rest of its quota comes in mid-window, and then a
      full burst the moment each following window can open. */
  function WorstCase(key: string, limit: RateLimit, k: nat): seq<Call>
    requires limit.limit >= 1
  {
    [Call(0.0, key, limit)] + Tail(key, limit, k)
  }

  lemma {:induction false} SpanGrows(k: nat, w: int)
    requires w > 0
    ensures Span(k, w) >= 0.0
  {
    if k > 0 {
      SpanGrows(k - 1, w);
    }
  }

  /** `Admitted` for calls of one key alone, on its one entry. */
  function Through(limit: RateLimit, expiresAt: real, count: nat, calls: seq<Call>, lo: real, hi: real): nat
    decreases calls
  {
    if calls == [] then 0
    else
      var now := calls[0].now;
      var inside := if lo <= now < hi then 1 else 0;
      if now < expiresAt then
        (if count + 1 <= limit.limit then inside else 0) + Through(limit, expiresAt, count + 1, calls[1..], lo, hi)
      else inside + Through(limit, now + limit.windowSeconds as real, 1, calls[1..], lo, hi)
  }

  /** At `since` the key's window closes at `expiresAt` after `count` calls, or has. */
  ghost predicate HasEntry(windows: Windows, key: string, since: real, expiresAt: real, count: nat) {
    if since < expiresAt then key in windows && windows[key] == Entry(expiresAt, count)
    else !Live(windows, key, since)
  }

  lemma {:induction false} OneKeyCounts(
    threshold: nat, windows: Windows, key: string, limit: RateLimit, expiresAt: real, count: nat,
    calls: seq<Call>, since: real, lo: real, hi: real)
    requires AllFor(calls, key, limit) && Monotone(calls, since) && limit.windowSeconds > 0
    requires HasEntry(windows, key, since, expiresAt, count)
    ensures Admitted(threshold, windows, calls, key, lo, hi) == Through(limit, expiresAt, count, calls, lo, hi)
    decreases calls
  {
    if calls != [] {
      var c, rest := calls[0], calls[1..];
      var next := Step(threshold, windows, c.now, c.key, c.limit).0;
      StepOnKey(threshold, windows, c, key);
      assert AllFor(rest, key, limit);
      if c.now < expiresAt {
        OneKeyCounts(threshold, next, key, limit, expiresAt, count + 1, rest, c.now, lo, hi);
      } else {
        OneKeyCounts(threshold, next, key, limit, c.now + limit.windowSeconds as real, 1, rest, c.now, lo, hi);
      }
    }
  }

  lemma {:induction false} BurstFits(
    n: nat, c: Call, rest: seq<Call>, expiresAt: real, count: nat, lo: real, hi: real)
    requires lo <= c.now < hi && c.now < expiresAt && count + n <= c.limit.limit
    ensures Through(c.limit, expiresAt, count, Burst(n, c) + rest, lo, hi)
            == n + Through(c.limit, expiresAt, count + n, rest, lo, hi)
    decreases n
  {
    if n == 0 {
      assert [] + rest == rest;
    } else {
      assert (Burst(n, c) + rest)[1..] == Burst(n - 1, c) + rest;
      BurstFits(n - 1, c, rest, expiresAt, count + 1, lo, hi);
    }
  }

  lemma {:induction false} TrainFits(
    key: string, limit: RateLimit, from: real, k: nat, expiresAt: real, count: nat, lo: real, hi: real)
    requires limit.limit >= 1 && limit.windowSeconds > 0
    requires expiresAt <= from && lo <= from && (k > 0 ==> from + Span(k - 1, limit.windowSeconds) < hi)
    ensures Through(limit, expiresAt, count, Train(key, limit, from, k), lo, hi) == Allowance(k, limit.limit)
    decreases k
  {
    if k > 0 {
      var c, w := Call(from, key, limit), limit.windowSeconds as real;
      var rest := Train(key, limit, from + w, k - 1);
      assert Train(key, limit, from, k)[1..] == Burst(limit.limit - 1, c) + rest;
      SpanGrows(k - 1, limit.windowSeconds);
      BurstFits(limit.limit - 1, c, rest, from + w, 1, lo, hi);
      TrainFits(key, limit, from + w, k - 1, from + w, limit.limit, lo, hi);
    }
  }

  ghost predicate AllFor(calls: seq<Call>, key: string, limit: RateLimit) {
    forall i :: 0 <= i < |calls| ==> calls[i].key == key && calls[i].limit == limit
  }

  lemma {:induction false} BurstIsRun(n: nat, c: Call, rest: seq<Call>, since: real)
    requires since <= c.now && Monotone(rest, c.now) && AllFor(rest, c.key, c.limit)
    ensures Monotone(Burst(n, c) + rest, since) && AllFor(Burst(n, c) + rest, c.key, c.limit)
    decreases n
  {
    if n == 0 {
      assert [] + rest == rest;
    } else {
      BurstIsRun(n - 1, c, rest, c.now);
      assert (Burst(n, c) + rest)[1..] == Burst(n - 1, c) + rest;
    }
  }

  lemma {:induction false} TrainIsRun(key: string, limit: RateLimit, from: real, k: nat, since: real)
    requires limit.windowSeconds > 0 && since <= from
    ensures Monotone(Train(key, limit, from, k), since) && AllFor(Train(key, limit, from, k), key, limit)
    decreases k
  {
    if k > 0 {
      var next := from + limit.windowSeconds as real;
      TrainIsRun(key, limit, next, k - 1, from);
      BurstIsRun(limit.limit, Call(from, key, limit), Train(key, limit, next, k - 1), since);
    }
  }

  lemma WorstCaseIsRun(key: string, limit: RateLimit, k: nat)
    requires limit.limit >= 1 && limit.windowSeconds > 0
    ensures Monotone(WorstCase(key, limit, k), 0.0) && LimitFor(WorstCase(key, limit, k), key, limit)
    ensures AllFor(WorstCase(key, limit, k), key, limit)
  {
    var w := limit.windowSeconds as real;
    TrainIsRun(key, limit, w, k, w / 2.0);
    BurstIsRun(limit.limit - 1, Call(w / 2.0, key, limit), Train(key, limit, w, k), 0.0);
    assert WorstCase(key, limit, k)[1..] == Tail(key, limit, k);
    assert AllFor(WorstCase(key, limit, k), key, limit);
  }

  lemma TailFits(key: string, limit: RateLimit, k: nat)
    requires limit.limit >= 1 && limit.windowSeconds > 0 && k >= 1
    ensures
      var w := limit.windowSeconds as real;
      Through(limit, w, 1, Tail(key, limit, k), w / 2.0, w / 2.0 + Span(k, limit.windowSeconds))
      == limit.limit - 1 + Allowance(k, limit.limit)
  {
    var w := limit.windowSeconds as real;
    var lo, hi := w / 2.0, w / 2.0 + Span(k, limit.windowSeconds);
    SpanGrows(k - 1, limit.windowSeconds);
    BurstFits(limit.limit - 1, Call(lo, key, limit), Train(key, limit, w, k), w, 1, lo, hi);
    TrainFits(key, limit, w, k, w, limit.limit, lo, hi);
  }

  /** The bound is attained: for every limit, window length and number of windows some
      run of calls for one key has exactly `(k + 1) * limit - 1` of them let through
      within an interval of that length, so no smaller bound holds for any of them. */
  lemma RateBoundIsTight(threshold: nat, key: string, limit: RateLimit, k: nat)
    requires limit.limit >= 1 && limit.windowSeconds > 0 && k >= 1
    ensures
      var calls, lo := WorstCase(key, limit, k), limit.windowSeconds as real / 2.0;
      && Monotone(calls, 0.0) && LimitFor(calls, key, limit)
      && Admitted(threshold, map[], calls, key, lo, lo + (k * limit.windowSeconds) as real)
         == (k + 1) * limit.limit - 1
  {
    WorstCaseIsRun(key, limit, k);
    SpanIsProduct(k, limit.windowSeconds, limit.limit);
    SpanIsProduct(k + 1, limit.windowSeconds, limit.limit);
    WorstCaseAdmits(threshold, key, limit, k);
  }

  lemma WorstCaseAdmits(threshold: nat, key: string, limit: RateLimit, k: nat)
    requires limit.limit >= 1 && limit.windowSeconds > 0 && k >= 1
    ensures
      var lo := limit.windowSeconds as real / 2.0;
      Admitted(threshold, map[], WorstCase(key, limit, k), key, lo, lo + Span(k, limit.windowSeconds))
      == limit.limit - 1 + Allowance(k, limit.limit)
  {
    var lo := limit.windowSeconds as real / 2.0;
    var hi := lo + Span(k, limit.windowSeconds);
    WorstCaseIsRun(key, limit, k);
    OneKeyCounts(threshold, map[], key, limit, 0.0, 0, WorstCase(key, limit, k), 0.0, lo, hi);
    assert WorstCase(key, limit, k)[1..] == Tail(key, limit, k);
    TailFits(key, limit, k);
  }
}
