/** A device that reports the version it runs on every poll and installs what it is
    offered: it only ever moves up, a bounded number of times, and then rests. */
module Upgrades {
  import opened Wrappers
  import opened Tables
  import opened Version
  import opened Policies
  import opened DeviceAuth
  import opened Firmware
  import opened UpdateDecisions
  import opened Ota
  import opened OtaSafety
  import opened World
  import opened Lifecycle

  /* ----- one poll ----- */

  /** A poll that proves the device and reports `running`. */
  ghost predicate Reports(db: Db, hash: string -> string, op: Op, id: int, running: string) {
    op.Poll? && Authenticates(db, hash, op, id) && op.req.reportedVersion == Some(running)
  }

  /** The manifest served is of a published release of the device's own type and
      strictly newer than the version reported, whatever an administrator asserted. */
  lemma OfferIsUpgrade(
    cfg: Config, hash: string -> string, w: World, op: Op, w': World, id: int, running: string)
    requires Sound(cfg, w) && Next(cfg, hash, w, op, w')
    requires Reports(w.db, hash, op, id, running) && op.response.ManifestServed?
    requires IsValidVersion(running)
    ensures id in w.db.devices && IsPublished(w.db, w.db.devices[id].typeId, op.response.release)
    ensures Key(running).Less(Key(op.response.release.version))
  {
    UpgradeOffered(hash, w, op, w', id, running);
  }

  lemma UpgradeOffered(hash: string -> string, w: World, op: Op, w': World, id: int, running: string)
    requires Reports(w.db, hash, op, id, running) && op.response.ManifestServed?
    requires PoliciesSound(w.db) && SerialsUnique(w.db) && IsValidVersion(running)
    requires Polls(hash, w.db, w.objects, op.req, op.allowed, op.now, op.reachable, w'.db, op.response)
    ensures id in w.db.devices && IsPublished(w.db, w.db.devices[id].typeId, op.response.release)
    ensures Key(running).Less(Key(op.response.release.version))
  {
    var who, checked, d := ServedMeansOffered(
      hash, w.db, w.objects, op.req, op.allowed, op.now, op.reachable, w'.db, op.response);
    OfferIsEntitled(checked, who, op.req.code, op.req.platform, op.now, d);
  }

  /* ----- the device beside the service ----- */

  /** `own` marks the polls the device makes; `running` is what it runs in each world.
      All other calls, requests with the same credentials included, are arbitrary. */
  datatype History = History(own: seq<bool>, running: seq<string>)

  ghost predicate Follows(
    hash: string -> string, worlds: seq<World>, ops: seq<Op>, id: int, h: History, k: nat)
    requires |worlds| == |ops| + 1 == |h.running| && |h.own| == |ops| && k < |ops|
  {
    if h.own[k] then
      && Reports(worlds[k].db, hash, ops[k], id, h.running[k])
      && h.running[k + 1]
         == (if ops[k].response.ManifestServed? then ops[k].response.release.version else h.running[k])
    else h.running[k + 1] == h.running[k]
  }

  ghost predicate DeviceRun(
    cfg: Config, hash: string -> string, worlds: seq<World>, ops: seq<Op>, id: int, h: History)
  {
    && IsRun(cfg, hash, worlds, ops) && worlds[0] == INITIAL
    && |h.running| == |worlds| && |h.own| == |ops|
    && IsValidVersion(h.running[0])
    && forall k: nat :: k < |ops| ==> Follows(hash, worlds, ops, id, h, k)
  }

  ghost predicate Installs(ops: seq<Op>, h: History, k: nat)
    requires |h.own| == |ops| && k < |ops|
  {
    h.own[k] && ops[k].Poll? && ops[k].response.ManifestServed?
  }

  /** Each call leaves the running version alone or installs a published release of
      the device's type with a strictly greater version number. */
  ghost predicate Climbs(worlds: seq<World>, ops: seq<Op>, id: int, h: History, k: nat)
    requires |worlds| == |ops| + 1 == |h.running| && |h.own| == |ops| && k < |ops|
  {
    IsValidVersion(h.running[k]) ==>
      && IsValidVersion(h.running[k + 1])
      && if Installs(ops, h, k) then
           && Key(h.running[k]).Less(Key(h.running[k + 1]))
           && id in worlds[k].db.devices
           && Key(h.running[k + 1]) in NumbersPublished(worlds[k].db, worlds[k].db.devices[id].typeId)
         else h.running[k + 1] == h.running[k]
  }

  lemma EveryCallClimbs(
    cfg: Config, hash: string -> string, worlds: seq<World>, ops: seq<Op>, id: int, h: History, k: nat)
    requires DeviceRun(cfg, hash, worlds, ops, id, h) && k < |ops|
    ensures Climbs(worlds, ops, id, h, k)
  {
    assert Follows(hash, worlds, ops, id, h, k);
    if Installs(ops, h, k) && IsValidVersion(h.running[k]) {
      RunIsSound(cfg, hash, worlds, ops, k);
      assert StepAt(cfg, hash, worlds, ops, k);
      OfferIsUpgrade(cfg, hash, worlds[k], ops[k], worlds[k + 1], id, h.running[k]);
      PublishedIsNumbered(worlds[k].db, worlds[k].db.devices[id].typeId, ops[k].response.release);
    }
  }

  /** The version numbers a type has published. */
  ghost function NumbersPublished(db: Db, typeId: int): set<Triple> {
    set id | id in db.releases && IsPublished(db, typeId, db.releases[id]) :: Key(db.releases[id].version)
  }

  lemma PublishedIsNumbered(db: Db, typeId: int, r: Release)
    requires IsPublished(db, typeId, r)
    ensures Key(r.version) in NumbersPublished(db, typeId)
  {
  }

  ghost predicate AllClimb(worlds: seq<World>, ops: seq<Op>, id: int, h: History) {
    && |worlds| == |ops| + 1 == |h.running| && |h.own| == |ops|
    && IsValidVersion(h.running[0])
    && forall k: nat :: k < |ops| ==> Climbs(worlds, ops, id, h, k)
  }

  lemma DeviceRunClimbs(
    cfg: Config, hash: string -> string, worlds: seq<World>, ops: seq<Op>, id: int, h: History)
    requires DeviceRun(cfg, hash, worlds, ops, id, h)
    ensures AllClimb(worlds, ops, id, h)
  {
    forall k: nat | k < |ops|
      ensures Climbs(worlds, ops, id, h, k)
    {
      EveryCallClimbs(cfg, hash, worlds, ops, id, h, k);
    }
  }

  /* ----- no downgrade ----- */

  lemma {:induction false} RunningIsValid(worlds: seq<World>, ops: seq<Op>, id: int, h: History, k: nat)
    requires AllClimb(worlds, ops, id, h) && k < |worlds|
    ensures IsValidVersion(h.running[k])
    decreases k
  {
    if k > 0 {
      RunningIsValid(worlds, ops, id, h, k - 1);
      assert Climbs(worlds, ops, id, h, k - 1);
    }
  }

  lemma {:induction false} ClimbsAddUp(worlds: seq<World>, ops: seq<Op>, id: int, h: History, i: nat, j: nat)
    requires AllClimb(worlds, ops, id, h) && i <= j < |worlds|
    ensures IsValidVersion(h.running[i]) && IsValidVersion(h.running[j])
    ensures Key(h.running[i]).AtMost(Key(h.running[j]))
    decreases j
  {
    RunningIsValid(worlds, ops, id, h, j);
    if i < j {
      ClimbsAddUp(worlds, ops, id, h, i, j - 1);
      assert Climbs(worlds, ops, id, h, j - 1);
      LessIsStrictTotal(Key(h.running[i]), Key(h.running[j - 1]), Key(h.running[j]));
    }
  }

  /** Under any interleaving of publications, deprecations, policy edits, admin
      assertions and foreign requests, what the device runs never goes down, and
      every install since goes up strictly. */
  lemma NoDowngrade(
    cfg: Config, hash: string -> string, worlds: seq<World>, ops: seq<Op>, id: int, h: History,
    i: nat, k: nat, j: nat)
    requires DeviceRun(cfg, hash, worlds, ops, id, h) && i <= k < j < |worlds|
    ensures IsValidVersion(h.running[i]) && IsValidVersion(h.running[j])
    ensures Key(h.running[i]).AtMost(Key(h.running[j]))
    ensures Installs(ops, h, k) ==> Key(h.running[i]).Less(Key(h.running[j]))
  {
    DeviceRunClimbs(cfg, hash, worlds, ops, id, h);
    InstallIsStrict(worlds, ops, id, h, i, k, j);
  }

  lemma InstallIsStrict(worlds: seq<World>, ops: seq<Op>, id: int, h: History, i: nat, k: nat, j: nat)
    requires AllClimb(worlds, ops, id, h) && i <= k < j < |worlds|
    ensures IsValidVersion(h.running[i]) && IsValidVersion(h.running[j])
    ensures Key(h.running[i]).AtMost(Key(h.running[j]))
    ensures Installs(ops, h, k) ==> Key(h.running[i]).Less(Key(h.running[j]))
  {
    ClimbsAddUp(worlds, ops, id, h, i, k);
    ClimbsAddUp(worlds, ops, id, h, k + 1, j);
    ClimbsAddUp(worlds, ops, id, h, i, j);
    assert Climbs(worlds, ops, id, h, k);
    LessIsStrictTotal(Key(h.running[i]), Key(h.running[k]), Key(h.running[k + 1]));
    LessIsStrictTotal(Key(h.running[i]), Key(h.running[k + 1]), Key(h.running[j]));
  }

  /* ----- a bounded number of installs ----- */

  ghost function InstallCount(ops: seq<Op>, h: History, n: nat): nat
    requires |h.own| == |ops| && n <= |ops|
  {
    if n == 0 then 0 else InstallCount(ops, h, n - 1) + if Installs(ops, h, n - 1) then 1 else 0
  }

  /** Every version number a type has had on offer before call `n`. */
  ghost function NumbersSeen(worlds: seq<World>, typeId: int, n: nat): set<Triple>
    requires n <= |worlds|
  {
    if n == 0 then {} else NumbersSeen(worlds, typeId, n - 1) + NumbersPublished(worlds[n - 1].db, typeId)
  }

  ghost function Above(numbers: set<Triple>, floor: Triple): set<Triple> {
    set v | v in numbers && floor.Less(v)
  }

  ghost predicate OneType(worlds: seq<World>, ops: seq<Op>, id: int, h: History, typeId: int)
    requires |worlds| == |ops| + 1 && |h.own| == |ops|
  {
    forall k: nat :: k < |ops| && Installs(ops, h, k) && id in worlds[k].db.devices ==>
      worlds[k].db.devices[id].typeId == typeId
  }

  lemma CallClimbs(worlds: seq<World>, ops: seq<Op>, id: int, h: History, typeId: int, k: nat)
    requires AllClimb(worlds, ops, id, h) && OneType(worlds, ops, id, h, typeId) && k < |ops|
    ensures IsValidVersion(h.running[0]) && IsValidVersion(h.running[k]) && IsValidVersion(h.running[k + 1])
    ensures Key(h.running[0]).AtMost(Key(h.running[k]))
    ensures if Installs(ops, h, k) then
              && Key(h.running[k]).Less(Key(h.running[k + 1]))
              && Key(h.running[k + 1]) in NumbersPublished(worlds[k].db, typeId)
            else h.running[k + 1] == h.running[k]
  {
    ClimbsAddUp(worlds, ops, id, h, 0, k);
    assert Climbs(worlds, ops, id, h, k);
  }

  /** The installed numbers are as many as the installs, all on offer at the time,
      above the first version and not above the present one. */
  ghost predicate AreInstalled(
    worlds: seq<World>, ops: seq<Op>, h: History, typeId: int, n: nat, numbers: set<Triple>)
    requires |h.own| == |ops| && n <= |ops| && n < |h.running| && n <= |worlds|
    requires IsValidVersion(h.running[0]) && IsValidVersion(h.running[n])
  {
    && |numbers| == InstallCount(ops, h, n)
    && numbers <= Above(NumbersSeen(worlds, typeId, n), Key(h.running[0]))
    && forall v :: v in numbers ==> v.AtMost(Key(h.running[n]))
  }

  lemma {:induction false} InstalledNumbers(
    worlds: seq<World>, ops: seq<Op>, id: int, h: History, typeId: int, n: nat) returns (numbers: set<Triple>)
    requires AllClimb(worlds, ops, id, h) && OneType(worlds, ops, id, h, typeId) && n <= |ops|
    ensures IsValidVersion(h.running[n]) && AreInstalled(worlds, ops, h, typeId, n, numbers)
    decreases n
  {
    if n == 0 {
      numbers := {};
      assert InstallCount(ops, h, 0) == 0;
    } else {
      var before := InstalledNumbers(worlds, ops, id, h, typeId, n - 1);
      CallClimbs(worlds, ops, id, h, typeId, n - 1);
      numbers := OneMoreCall(worlds, ops, h, typeId, n - 1, before);
    }
  }

  lemma OneMoreCall(
    worlds: seq<World>, ops: seq<Op>, h: History, typeId: int, k: nat, before: set<Triple>)
    returns (numbers: set<Triple>)
    requires |worlds| == |ops| + 1 == |h.running| && |h.own| == |ops| && k < |ops|
    requires IsValidVersion(h.running[0]) && IsValidVersion(h.running[k]) && IsValidVersion(h.running[k + 1])
    requires Key(h.running[0]).AtMost(Key(h.running[k]))
    requires if Installs(ops, h, k) then
               && Key(h.running[k]).Less(Key(h.running[k + 1]))
               && Key(h.running[k + 1]) in NumbersPublished(worlds[k].db, typeId)
             else h.running[k + 1] == h.running[k]
    requires AreInstalled(worlds, ops, h, typeId, k, before)
    ensures AreInstalled(worlds, ops, h, typeId, k + 1, numbers)
  {
    var floor, seen := Key(h.running[0]), NumbersSeen(worlds, typeId, k + 1);
    AboveGrows(NumbersSeen(worlds, typeId, k), seen, floor);
    numbers := before;
    if Installs(ops, h, k) {
      numbers := NewNumber(before, seen, floor, Key(h.running[k]), Key(h.running[k + 1]));
    }
  }

  lemma AboveGrows(a: set<Triple>, b: set<Triple>, floor: Triple)
    requires a <= b
    ensures Above(a, floor) <= Above(b, floor)
  {
  }

  lemma NewNumber(numbers: set<Triple>, seen: set<Triple>, floor: Triple, last: Triple, next: Triple)
    returns (more: set<Triple>)
    requires floor.AtMost(last) && last.Less(next) && next in seen && numbers <= Above(seen, floor)
    requires forall v :: v in numbers ==> v.AtMost(last)
    ensures |more| == |numbers| + 1 && more <= Above(seen, floor)
    ensures forall v :: v in more ==> v.AtMost(next)
  {
    more := numbers + {next};
    forall v | v in numbers
      ensures v.Less(next)
    {
      LessIsStrictTotal(v, last, next);
    }
    LessIsStrictTotal(floor, last, next);
    LessIsStrictTotal(next, next, next);
  }

  lemma {:induction false} SubsetIsSmaller<T>(a: set<T>, b: set<T>)
    requires a <= b
    ensures |a| <= |b|
  {
    if a != {} {
      var x :| x in a;
      SubsetIsSmaller(a - {x}, b - {x});
    }
  }

  lemma OwnPollsHaveOneType(
    cfg: Config, hash: string -> string, worlds: seq<World>, ops: seq<Op>, id: int, h: History, s: nat)
    requires DeviceRun(cfg, hash, worlds, ops, id, h) && s < |ops| && h.own[s]
    ensures id in worlds[s].db.devices
    ensures OneType(worlds, ops, id, h, worlds[s].db.devices[id].typeId)
  {
    assert Follows(hash, worlds, ops, id, h, s);
    AuthenticatedIdentityIsFixed(cfg, hash, worlds, ops, s, s, id) by {
      RunIsSound(cfg, hash, worlds, ops, s);
      AuthenticatedIsLocked(worlds[s].db, hash, ops[s].req.credentials, id);
    }
    forall k: nat | k < |ops| && Installs(ops, h, k) && id in worlds[k].db.devices
      ensures worlds[k].db.devices[id].typeId == worlds[s].db.devices[id].typeId
    {
      assert Follows(hash, worlds, ops, id, h, k);
      if k <= s {
        AuthenticatedIdentityIsFixed(cfg, hash, worlds, ops, k, s, id);
      } else {
        AuthenticatedIdentityIsFixed(cfg, hash, worlds, ops, s, k, id);
      }
    }
  }

  /** A device installs at most as often as its type has published distinct version
      numbers above the one it started with. */
  lemma InstallsAreBounded(
    cfg: Config, hash: string -> string, worlds: seq<World>, ops: seq<Op>, id: int, h: History, s: nat, n: nat)
    requires DeviceRun(cfg, hash, worlds, ops, id, h) && s < |ops| && h.own[s] && n <= |ops|
    ensures id in worlds[s].db.devices
    ensures InstallCount(ops, h, n)
            <= |Above(NumbersSeen(worlds, worlds[s].db.devices[id].typeId, n), Key(h.running[0]))|
  {
    DeviceRunClimbs(cfg, hash, worlds, ops, id, h);
    OwnPollsHaveOneType(cfg, hash, worlds, ops, id, h, s);
    var typeId := worlds[s].db.devices[id].typeId;
    var numbers := InstalledNumbers(worlds, ops, id, h, typeId, n);
    SubsetIsSmaller(numbers, Above(NumbersSeen(worlds, typeId, n), Key(h.running[0])));
  }

  /* ----- and then it rests ----- */

  /** What a decision reads, but for the version, is the same for two polls. */
  ghost predicate SameFooting(w: World, op: Op, w': World, op': Op, id: int)
    requires op.Poll? && op'.Poll?
  {
    && w'.db.policies == w.db.policies && w'.db.releases == w.db.releases && w'.db.types == w.db.types
    && op'.req.code == op.req.code && op'.req.platform == op.req.platform
    && id in w.db.devices && id in w'.db.devices
    && var d, d' := w.db.devices[id], w'.db.devices[id];
       && d'.typeId == d.typeId && d'.status == d.status && d'.otaEnabled == d.otaEnabled
       && Resolve(w'.db.policies, id, d'.typeId, op'.now) == Resolve(w.db.policies, id, d.typeId, op.now)
  }

  /** One of the device's own polls, in a sound state. */
  ghost predicate OwnPoll(hash: string -> string, w: World, op: Op, w': World, id: int, running: string) {
    && PoliciesSound(w.db) && SerialsUnique(w.db)
    && Reports(w.db, hash, op, id, running)
    && Polls(hash, w.db, w.objects, op.req, op.allowed, op.now, op.reachable, w'.db, op.response)
  }

  lemma InstalledThenNoUpdate(
    hash: string -> string, w: World, op: Op, next: World, w': World, op': Op, next': World,
    id: int, before: string, after: string)
    requires OwnPoll(hash, w, op, next, id, before) && op.response.ManifestServed?
    requires OwnPoll(hash, w', op', next', id, after) && op'.allowed
    requires IsValidVersion(op.response.release.version) && IsValidVersion(after)
    requires Key(op.response.release.version).AtMost(Key(after))
    requires SameFooting(w, op, w', op', id)
    ensures op'.response == NoOffer(NoUpdate)
  {
    var who, checked, d := ServedMeansOffered(
      hash, w.db, w.objects, op.req, op.allowed, op.now, op.reachable, next.db, op.response);
    var req := op'.req;
    var checked' := Checked(Seen(w'.db, id, op'.now), id, req.reportedVersion, op'.now);
    var e :| Decides(checked', id, req.code, req.platform, op'.now, e)
             && AnswersPoll(checked', w'.objects, id, e, op'.reachable, next'.db, op'.response);
    InstalledMeansNoUpdate(checked, checked', id, req.code, req.platform, op.now, op'.now, d, e);
  }

  /** Convergence: at any time after an install, and whatever was installed since, a
      poll admitted by the limiter on the same footing is answered that there is no
      update. */
  lemma InstalledThenRests(
    cfg: Config, hash: string -> string, worlds: seq<World>, ops: seq<Op>, id: int, h: History, k: nat, m: nat)
    requires DeviceRun(cfg, hash, worlds, ops, id, h) && k < m < |ops|
    requires Installs(ops, h, k) && h.own[m] && ops[m].Poll? && ops[m].allowed
    requires SameFooting(worlds[k], ops[k], worlds[m], ops[m], id)
    ensures ops[m].response == NoOffer(NoUpdate)
  {
    InstalledIsReached(cfg, hash, worlds, ops, id, h, k, m);
    OwnPollAt(cfg, hash, worlds, ops, id, h, k);
    OwnPollAt(cfg, hash, worlds, ops, id, h, m);
    InstalledThenNoUpdate(
      hash, worlds[k], ops[k], worlds[k + 1], worlds[m], ops[m], worlds[m + 1], id, h.running[k], h.running[m]);
  }

  lemma InstalledIsReached(
    cfg: Config, hash: string -> string, worlds: seq<World>, ops: seq<Op>, id: int, h: History, k: nat, m: nat)
    requires DeviceRun(cfg, hash, worlds, ops, id, h) && k < m < |ops| && Installs(ops, h, k)
    ensures IsValidVersion(ops[k].response.release.version) && IsValidVersion(h.running[m])
    ensures Key(ops[k].response.release.version).AtMost(Key(h.running[m]))
  {
    DeviceRunClimbs(cfg, hash, worlds, ops, id, h);
    ClimbsAddUp(worlds, ops, id, h, k + 1, m);
    InstallSetsRunning(cfg, hash, worlds, ops, id, h, k);
  }

  lemma InstallSetsRunning(
    cfg: Config, hash: string -> string, worlds: seq<World>, ops: seq<Op>, id: int, h: History, k: nat)
    requires DeviceRun(cfg, hash, worlds, ops, id, h) && k < |ops| && Installs(ops, h, k)
    ensures h.running[k + 1] == ops[k].response.release.version
  {
    assert Follows(hash, worlds, ops, id, h, k);
  }

  lemma OwnPollAt(
    cfg: Config, hash: string -> string, worlds: seq<World>, ops: seq<Op>, id: int, h: History, k: nat)
    requires DeviceRun(cfg, hash, worlds, ops, id, h) && k < |ops| && h.own[k]
    ensures OwnPoll(hash, worlds[k], ops[k], worlds[k + 1], id, h.running[k])
  {
    assert Follows(hash, worlds, ops, id, h, k);
    RunIsSound(cfg, hash, worlds, ops, k);
    assert StepAt(cfg, hash, worlds, ops, k);
  }
}
