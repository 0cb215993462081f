/** What the attempts table says of downloads is true: over any run every recorded
    delivery was served, and none is recorded twice. */
module Evidence {
  import opened Wrappers
  import opened Tables
  import opened Policies
  import opened DeviceAuth
  import opened Firmware
  import opened ReleaseSafety
  import opened Ota
  import opened OtaSafety
  import opened World

  /* ----- recorded and served deliveries ----- */

  function RecordOf(a: Attempt): multiset<Ticket> {
    if a.status.DownloadServed? && a.bytesServed.Some? then
      multiset{Ticket(a.deviceId, a.releaseId, a.bytesServed.value)}
    else multiset{}
  }

  function Recorded(attempts: seq<Attempt>): multiset<Ticket> {
    if attempts == [] then multiset{}
    else Recorded(attempts[..|attempts| - 1]) + RecordOf(attempts[|attempts| - 1])
  }

  ghost predicate Sized(attempts: seq<Attempt>) {
    forall i :: 0 <= i < |attempts| && attempts[i].status.DownloadServed? ==> attempts[i].bytesServed.Some?
  }

  /** The responses started by the calls before `n`. */
  ghost function ServedBefore(hash: string -> string, worlds: seq<World>, ops: seq<Op>, n: nat): multiset<Ticket>
    requires |worlds| == |ops| + 1 && n <= |ops|
  {
    if n == 0 then multiset{}
    else ServedBefore(hash, worlds, ops, n - 1) + Opened(hash, worlds[n - 1].db, ops[n - 1])
  }

  lemma RecordedGrows(attempts: seq<Attempt>, a: Attempt)
    ensures Recorded(attempts + [a]) == Recorded(attempts) + RecordOf(a)
    ensures Sized(attempts) && (a.status.DownloadServed? ==> a.bytesServed.Some?) ==> Sized(attempts + [a])
  {
    assert (attempts + [a])[..|attempts|] == attempts;
  }

  lemma {:induction false} RecordIsCounted(attempts: seq<Attempt>, i: nat)
    requires i < |attempts|
    ensures RecordOf(attempts[i]) <= Recorded(attempts)
    decreases |attempts|
  {
    var front := attempts[..|attempts| - 1];
    if i < |front| {
      RecordIsCounted(front, i);
    }
  }

  /* ----- one call ----- */

  /** Nothing appears in the record or among the open responses but what this call
      served. */
  ghost predicate Accounts(hash: string -> string, w: World, op: Op, w': World) {
    && Recorded(w'.db.attempts) + w'.open <= Recorded(w.db.attempts) + w.open + Opened(hash, w.db, op)
    && (Sized(w.db.attempts) ==> Sized(w'.db.attempts))
  }

  lemma CompletionAccounts(hash: string -> string, w: World, ticket: Ticket, records: bool)
    requires ticket in w.open
    ensures
      var w' := w.(db := Completed(w.db, ticket, records), open := w.open - multiset{ticket});
      Accounts(hash, w, CompleteDownload(ticket, records), w')
  {
    var next := Completed(w.db, ticket, records);
    if next != w.db {
      var a := next.attempts[|w.db.attempts|];
      assert next.attempts == w.db.attempts + [a];
      RecordedGrows(w.db.attempts, a);
      assert RecordOf(a) == multiset{ticket};
    }
  }

  lemma PollAccounts(
    hash: string -> string, db: Db, objects: Objects, req: Request, allowed: bool, now: int, reachable: bool,
    next: Db, response: Response)
    requires PoliciesSound(db) && SerialsUnique(db)
    requires Polls(hash, db, objects, req, allowed, now, reachable, next, response)
    ensures Recorded(next.attempts) == Recorded(db.attempts)
    ensures Sized(db.attempts) ==> Sized(next.attempts)
  {
    IdentifyIsProof(db, hash, req.credentials);
    if response.ManifestServed? {
      var id, checked, d := ServedMeansOffered(hash, db, objects, req, allowed, now, reachable, next, response);
      var r := response.release;
      if !AlreadyOffered(checked, id, r.version) {
        RecordedGrows(
          checked.attempts, Attempt(id, r.id, checked.devices[id].currentVersion, r.version, UpdateOffered, None));
      }
    }
  }

  lemma AdminKeepsAttempts(cfg: Config, hash: string -> string, w: World, op: Op, w': World)
    requires Sound(cfg, w) && Next(cfg, hash, w, op, w')
    requires !op.Poll? && !op.Download? && !op.CompleteDownload?
    ensures w'.db.attempts == w.db.attempts && w'.open == w.open
  {
    match op
    case OnType(o) => TypeFootprint(w.db, o);
    case OnDevice(o) => DeviceFootprint(w.db, o);
    case OnToken(o) => TokenFootprint(w.db, o);
    case OnPolicy(o) => PolicyFootprint(w.db, o);
    case OnRelease(o) => ReleaseFootprint(cfg, w, o);
    case UploadRelease(typeId, version, upload, faults, settings) =>
      SettingsDoNotMatter(cfg, settings, w.db, w.objects);
      UploadFootprint(Under(cfg, settings), w, typeId, version, upload, faults);
  }

  lemma StepAccounts(cfg: Config, hash: string -> string, w: World, op: Op, w': World)
    requires Sound(cfg, w) && Next(cfg, hash, w, op, w')
    ensures Accounts(hash, w, op, w')
  {
    if op.CompleteDownload? {
      CompletionAccounts(hash, w, op.ticket, op.records);
    } else if op.Poll? {
      PollAccounts(hash, w.db, w.objects, op.req, op.allowed, op.now, op.reachable, w'.db, op.response);
    } else if op.Download? {
      IdentifyIsProof(w.db, hash, op.req.credentials);
      assert w'.db.attempts == w.db.attempts;
    } else {
      AdminKeepsAttempts(cfg, hash, w, op, w');
    }
  }

  /* ----- runs ----- */

  lemma CallAccounts(cfg: Config, hash: string -> string, worlds: seq<World>, ops: seq<Op>, k: nat)
    requires IsRun(cfg, hash, worlds, ops) && worlds[0] == INITIAL && 0 < k < |worlds|
    ensures Accounts(hash, worlds[k - 1], ops[k - 1], worlds[k])
  {
    RunIsSound(cfg, hash, worlds, ops, k - 1);
    assert StepAt(cfg, hash, worlds, ops, k - 1);
    StepAccounts(cfg, hash, worlds[k - 1], ops[k - 1], worlds[k]);
  }

  /** Conservation: at every point of a run the recorded deliveries and the responses
      still open are, counted with their repetitions, among the responses served so
      far. No delivery is recorded twice, or before or without being served. */
  lemma {:induction false} RecordedWithinServed(
    cfg: Config, hash: string -> string, worlds: seq<World>, ops: seq<Op>, j: nat)
    requires IsRun(cfg, hash, worlds, ops) && worlds[0] == INITIAL && j < |worlds|
    ensures Recorded(worlds[j].db.attempts) + worlds[j].open <= ServedBefore(hash, worlds, ops, j)
    ensures Sized(worlds[j].db.attempts)
    decreases j
  {
    if j > 0 {
      RecordedWithinServed(cfg, hash, worlds, ops, j - 1);
      CallAccounts(cfg, hash, worlds, ops, j);
      AccountsAddUp(hash, worlds, ops, j);
    }
  }

  lemma AccountsAddUp(hash: string -> string, worlds: seq<World>, ops: seq<Op>, j: nat)
    requires |worlds| == |ops| + 1 && 0 < j < |worlds|
    requires Accounts(hash, worlds[j - 1], ops[j - 1], worlds[j])
    requires Recorded(worlds[j - 1].db.attempts) + worlds[j - 1].open <= ServedBefore(hash, worlds, ops, j - 1)
    ensures Recorded(worlds[j].db.attempts) + worlds[j].open <= ServedBefore(hash, worlds, ops, j)
  {
  }

  lemma {:induction false} ServedWasOpened(
    hash: string -> string, worlds: seq<World>, ops: seq<Op>, n: nat, t: Ticket) returns (i: nat)
    requires |worlds| == |ops| + 1 && n <= |ops| && t in ServedBefore(hash, worlds, ops, n)
    ensures i < n && t in Opened(hash, worlds[i].db, ops[i])
    decreases n
  {
    if t in Opened(hash, worlds[n - 1].db, ops[n - 1]) {
      i := n - 1;
    } else {
      i := ServedWasOpened(hash, worlds, ops, n - 1, t);
    }
  }

  /** `op` served the device the release and size the attempt records. */
  ghost predicate Serves(hash: string -> string, w: World, op: Op, a: Attempt) {
    && op.Download? && op.response.FirmwareServed?
    && Identify(w.db, hash, op.req.credentials) == Success(a.deviceId)
    && op.response.release.id == a.releaseId && a.bytesServed == Some(op.response.contentLength)
  }

  /** Every attempt recorded as DOWNLOAD_SERVED goes back to an earlier download that
      was answered with that release, to that device, with that many bytes announced. */
  lemma RecordedMeansServed(
    cfg: Config, hash: string -> string, worlds: seq<World>, ops: seq<Op>, j: nat, k: nat)
    requires IsRun(cfg, hash, worlds, ops) && worlds[0] == INITIAL && j < |worlds|
    requires k < |worlds[j].db.attempts| && worlds[j].db.attempts[k].status.DownloadServed?
    ensures exists i: nat :: i < j && Serves(hash, worlds[i], ops[i], worlds[j].db.attempts[k])
  {
    var a := worlds[j].db.attempts[k];
    RecordedWithinServed(cfg, hash, worlds, ops, j);
    RecordIsCounted(worlds[j].db.attempts, k);
    var t := Ticket(a.deviceId, a.releaseId, a.bytesServed.value);
    assert t in RecordOf(a);
    var i := ServedWasOpened(hash, worlds, ops, j, t);
    assert Serves(hash, worlds[i], ops[i], a);
  }
}
