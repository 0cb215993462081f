/** Administrative accounts and the sessions opened on them
    (app/services/admin_users.py, app/services/admin_auth.py). */
module Admin {
  import opened Wrappers
  import opened Text

  datatype Role = SuperAdmin | FleetManager | FirmwareManager | Viewer

  datatype Account = Account(
    email: string, passwordHash: string, role: Role, isActive: bool, sessionVersion: int)

  datatype Users = Users(accounts: map<int, Account>, nextId: int)

  const NO_USERS := Users(map[], 1)

  datatype AdminError =
    | InvalidEmail | WeakPassword | AdminEmailExists | AdminNotFound | LastSuperAdmin
    | InvalidPassword | PasswordUnchanged | InvalidCredentials
    | Unauthenticated | InvalidSession

  /** Password hashing, whose salt is chosen anew for each call. */
  datatype Hasher = Hasher(
    hash: (string, nat) -> string,
    verify: (string, string) -> bool,
    needsRehash: string -> bool,
    printable: string -> bool)

  /* ----- e-mail addresses and passwords ----- */

  const EMAIL_MAX_LENGTH := 254
  const PASSWORD_MIN_LENGTH := 12
  const PASSWORD_MAX_LENGTH := 128

  function LowerChar(c: char): char {
    if 'A' <= c <= 'Z' then (c as int + 32) as char else c
  }

  function Lower(s: string): (t: string)
    ensures |t| == |s| && forall i :: 0 <= i < |s| ==> t[i] == LowerChar(s[i])
  {
    if s == "" then "" else [LowerChar(s[0])] + Lower(s[1..])
  }

  predicate LooksLikeEmail(s: string) {
    && s != "" && |s| <= EMAIL_MAX_LENGTH && ' ' !in s
    && var parts := Split(s, '@');
       |parts| == 2 && parts[0] != "" && '.' in parts[1] && parts[1][0] != '.'
  }

  function NormalizeEmail(email: string): Result<string, AdminError> {
    var normalized := Lower(Strip(email));
    if LooksLikeEmail(normalized) then Success(normalized) else Failure(InvalidEmail)
  }

  /** A stored address is its own normal form: no account can be registered twice
      under two spellings of case or surrounding space. */
  lemma NormalizeIsIdempotent(email: string)
    requires NormalizeEmail(email).Success?
    ensures NormalizeEmail(NormalizeEmail(email).value) == NormalizeEmail(email)
  {
    var stripped := Strip(email);
    StripTrims(email);
    assert !IsSpace(Lower(stripped)[0]) && !IsSpace(Lower(stripped)[|stripped| - 1]);
    assert Strip(Lower(stripped)) == Lower(stripped);
    assert Lower(Lower(stripped)) == Lower(stripped);
  }

  predicate StrongPassword(h: Hasher, password: string) {
    && PASSWORD_MIN_LENGTH <= |password| <= PASSWORD_MAX_LENGTH
    && Strip(password) == password && h.printable(password)
  }

  /* ----- accounts ----- */

  predicate EmailTaken(u: Users, email: string) {
    exists id :: id in u.accounts && u.accounts[id].email == email
  }

  function Create(u: Users, h: Hasher, email: string, password: string, role: Role, salt: nat)
    : Result<Users, AdminError>
  {
    var normalized :- NormalizeEmail(email);
    if !StrongPassword(h, password) then Failure(WeakPassword)
    else if EmailTaken(u, normalized) then Failure(AdminEmailExists)
    else
      var row := Account(normalized, h.hash(password, salt), role, true, 1);
      Success(Users(u.accounts[u.nextId := row], u.nextId + 1))
  }

  /** Creates the first account only. */
  function Bootstrap(u: Users, h: Hasher, email: string, password: string, salt: nat): Result<Users, AdminError> {
    if |u.accounts| > 0 then Success(u) else Create(u, h, email, password, SuperAdmin, salt)
  }

  predicate IsActiveSuperAdmin(u: Users, id: int) {
    id in u.accounts && u.accounts[id].role.SuperAdmin? && u.accounts[id].isActive
  }

  predicate OtherActiveSuperAdmin(u: Users, id: int) {
    exists other :: other in u.accounts && other != id && IsActiveSuperAdmin(u, other)
  }

  predicate IsLastSuperAdmin(u: Users, id: int)
    requires id in u.accounts
  {
    u.accounts[id].role.SuperAdmin? && !OtherActiveSuperAdmin(u, id)
  }

  function WithAccount(u: Users, id: int, row: Account): Users {
    u.(accounts := u.accounts[id := row])
  }

  function SetActive(u: Users, id: int, isActive: bool): Result<Users, AdminError> {
    if id !in u.accounts then Failure(AdminNotFound)
    else if !isActive && IsLastSuperAdmin(u, id) then Failure(LastSuperAdmin)
    else
      var a := u.accounts[id];
      var version := if isActive then a.sessionVersion else a.sessionVersion + 1;
      Success(WithAccount(u, id, a.(isActive := isActive, sessionVersion := version)))
  }

  function SetRole(u: Users, id: int, role: Role): Result<Users, AdminError> {
    if id !in u.accounts then Failure(AdminNotFound)
    else if !role.SuperAdmin? && IsLastSuperAdmin(u, id) then Failure(LastSuperAdmin)
    else
      var a := u.accounts[id];
      var version := if role == a.role then a.sessionVersion else a.sessionVersion + 1;
      Success(WithAccount(u, id, a.(role := role, sessionVersion := version)))
  }

  function SetPassword(u: Users, h: Hasher, id: int, password: string, salt: nat): Result<Users, AdminError> {
    if !StrongPassword(h, password) then Failure(WeakPassword)
    else if id !in u.accounts then Failure(AdminNotFound)
    else
      var a := u.accounts[id];
      Success(WithAccount(u, id, a.(passwordHash := h.hash(password, salt), sessionVersion := a.sessionVersion + 1)))
  }

  function ChangeOwnPassword(u: Users, h: Hasher, id: int, current: string, password: string, salt: nat)
    : Result<Users, AdminError>
  {
    if id !in u.accounts then Failure(AdminNotFound)
    else if !h.verify(current, u.accounts[id].passwordHash) then Failure(InvalidPassword)
    else if !StrongPassword(h, password) then Failure(WeakPassword)
    else if h.verify(password, u.accounts[id].passwordHash) then Failure(PasswordUnchanged)
    else SetPassword(u, h, id, password, salt)
  }

  /* ----- sessions ----- */

  const LEEWAY_SECONDS := 10

  /** The signed content of a token. Only tokens the service issued carry a valid
      signature, so a presented token is `None`, or one of those. */
  datatype Claims = Claims(adminId: int, role: Role, sessionVersion: int, issuedAt: int, expiresAt: int)

  ghost predicate EmailsUnique(u: Users) {
    forall i, j :: i in u.accounts && j in u.accounts && u.accounts[i].email == u.accounts[j].email ==> i == j
  }

  ghost predicate HasEmail(u: Users, id: int, email: string) {
    id in u.accounts && u.accounts[id].email == email
  }

  /** The account the credentials open. Unknown, wrong and inactive look alike. */
  ghost function Authenticate(u: Users, h: Hasher, email: string, password: string): Result<int, AdminError> {
    if NormalizeEmail(email).Failure? then Failure(InvalidEmail)
    else if !exists id :: HasEmail(u, id, NormalizeEmail(email).value) then Failure(InvalidCredentials)
    else
      var id :| HasEmail(u, id, NormalizeEmail(email).value);
      if h.verify(password, u.accounts[id].passwordHash) && u.accounts[id].isActive then Success(id)
      else Failure(InvalidCredentials)
  }

  /** A login may renew the stored hash of the same password. */
  function Rehashed(u: Users, h: Hasher, id: int, password: string, salt: nat): Users
    requires id in u.accounts
  {
    var a := u.accounts[id];
    if h.needsRehash(a.passwordHash) then WithAccount(u, id, a.(passwordHash := h.hash(password, salt))) else u
  }

  function IssueToken(u: Users, id: int, now: int, ttl: int): Claims
    requires id in u.accounts
  {
    Claims(id, u.accounts[id].role, u.accounts[id].sessionVersion, now, now + ttl)
  }

  function Resolve(u: Users, token: Option<Claims>, now: int): Result<int, AdminError> {
    if token.None? then Failure(Unauthenticated)
    else
      var t := token.value;
      if now + LEEWAY_SECONDS < t.issuedAt || t.expiresAt <= now - LEEWAY_SECONDS then Failure(InvalidSession)
      else if t.adminId !in u.accounts || !u.accounts[t.adminId].isActive then Failure(InvalidSession)
      else if u.accounts[t.adminId].sessionVersion != t.sessionVersion then Failure(InvalidSession)
      else Success(t.adminId)
  }

  ghost predicate Answers(before: Users, after: Users, spec: Result<Users, AdminError>, error: Option<AdminError>) {
    match spec
    case Success(next) => error.None? && after == next
    case Failure(code) => error == Some(code) && after == before
  }

  class AdminUserService {
    const hasher: Hasher
    var users: Users

    constructor (hasher: Hasher)
      ensures this.hasher == hasher && users == NO_USERS
    {
      this.hasher := hasher;
      users := NO_USERS;
    }

    method CreateAdmin(email: string, password: string, role: Role, salt: nat)
      returns (id: int, error: Option<AdminError>)
      modifies this
      ensures Answers(old(users), users, Create(old(users), hasher, email, password, role, salt), error)
      ensures error.None? ==> id == old(users).nextId
    {
      id := users.nextId;
      var normalized := NormalizeEmail(email);
      if normalized.Failure? {
        return id, Some(InvalidEmail);
      }
      if !StrongPassword(hasher, password) {
        return id, Some(WeakPassword);
      }
      if EmailTaken(users, normalized.value) {
        return id, Some(AdminEmailExists);
      }
      var row := Account(normalized.value, hasher.hash(password, salt), role, true, 1);
      users := Users(users.accounts[id := row], id + 1);
      error := None;
    }

    /** Reports the account with the least id when there is one already. */
    method BootstrapSuperAdmin(email: string, password: string, salt: nat)
      returns (id: int, created: bool, error: Option<AdminError>)
      modifies this
      ensures Answers(old(users), users, Bootstrap(old(users), hasher, email, password, salt), error)
      ensures created <==> |old(users).accounts| == 0 && error.None?
      ensures error.None? ==> id in users.accounts
      ensures |old(users).accounts| > 0 ==> forall other :: other in users.accounts ==> id <= other
    {
      if |users.accounts| > 0 {
        id := First(users.accounts.Keys);
        return id, false, None;
      }
      id, error := CreateAdmin(email, password, SuperAdmin, salt);
      created := error.None?;
    }

    static method First(ids: set<int>) returns (least: int)
      requires ids != {}
      ensures least in ids && forall other :: other in ids ==> least <= other
    {
      least := PickAny(ids);
      var pending := ids - {least};
      while pending != {}
        invariant pending <= ids && least in ids
        invariant forall other :: other in ids && other !in pending ==> least <= other
        decreases pending
      {
        var id := PickAny(pending);
        pending := pending - {id};
        if id < least {
          least := id;
        }
      }
    }

    method SetAccountActive(id: int, isActive: bool) returns (error: Option<AdminError>)
      modifies this
      ensures Answers(old(users), users, SetActive(old(users), id, isActive), error)
    {
      if id !in users.accounts {
        return Some(AdminNotFound);
      }
      var admin := users.accounts[id];
      if !isActive {
        error := AssertNotLastSuperAdmin(id);
        if error.Some? {
          return;
        }
        admin := admin.(sessionVersion := admin.sessionVersion + 1);
      }
      admin := admin.(isActive := isActive);
      users := WithAccount(users, id, admin);
      error := None;
    }

    method SetAccountRole(id: int, role: Role) returns (error: Option<AdminError>)
      modifies this
      ensures Answers(old(users), users, SetRole(old(users), id, role), error)
    {
      if id !in users.accounts {
        return Some(AdminNotFound);
      }
      var admin := users.accounts[id];
      if role != SuperAdmin {
        error := AssertNotLastSuperAdmin(id);
        if error.Some? {
          return;
        }
      }
      if role != admin.role {
        admin := admin.(sessionVersion := admin.sessionVersion + 1);
      }
      admin := admin.(role := role);
      users := WithAccount(users, id, admin);
      error := None;
    }

    method AssertNotLastSuperAdmin(id: int) returns (error: Option<AdminError>)
      requires id in users.accounts
      ensures error == if IsLastSuperAdmin(users, id) then Some(LastSuperAdmin) else None
    {
      if users.accounts[id].role != SuperAdmin {
        return None;
      }
      var accounts := users.accounts;
      var others := set other | && other in accounts && accounts[other].role == SuperAdmin
                                && accounts[other].isActive && other != id;
      if |others| == 0 {
        assert forall other :: other in accounts && other != id && IsActiveSuperAdmin(users, other) ==> other in others;
        return Some(LastSuperAdmin);
      }
      var other := PickAny(others);
      assert IsActiveSuperAdmin(users, other);
      return None;
    }

    method SetAccountPassword(id: int, password: string, salt: nat) returns (error: Option<AdminError>)
      modifies this
      ensures Answers(old(users), users, SetPassword(old(users), hasher, id, password, salt), error)
    {
      if !StrongPassword(hasher, password) {
        return Some(WeakPassword);
      }
      if id !in users.accounts {
        return Some(AdminNotFound);
      }
      var admin := users.accounts[id];
      admin := admin.(passwordHash := hasher.hash(password, salt));
      admin := admin.(sessionVersion := admin.sessionVersion + 1);
      users := WithAccount(users, id, admin);
      error := None;
    }

    method ChangePassword(id: int, current: string, password: string, salt: nat)
      returns (error: Option<AdminError>)
      modifies this
      ensures Answers(old(users), users, ChangeOwnPassword(old(users), hasher, id, current, password, salt), error)
    {
      if id !in users.accounts {
        return Some(AdminNotFound);
      }
      if !hasher.verify(current, users.accounts[id].passwordHash) {
        return Some(InvalidPassword);
      }
      if !StrongPassword(hasher, password) {
        return Some(WeakPassword);
      }
      if hasher.verify(password, users.accounts[id].passwordHash) {
        return Some(PasswordUnchanged);
      }
      error := SetAccountPassword(id, password, salt);
    }

    method FindByEmail(email: string) returns (found: Option<int>)
      requires EmailsUnique(users)
      ensures forall id :: HasEmail(users, id, email) <==> found == Some(id)
    {
      var accounts := users.accounts;
      var rows := set id | id in accounts && accounts[id].email == email;
      if rows == {} {
        assert forall id :: HasEmail(users, id, email) ==> id in rows;
        return None;
      }
      var id := PickAny(rows);
      return Some(id);
    }
  }

  class AdminAuthService {
    const users: AdminUserService
    const ttl: int

    constructor (users: AdminUserService, ttl: int)
      ensures this.users == users && this.ttl == ttl
    {
      this.users, this.ttl := users, ttl;
    }

    method Login(email: string, password: string, salt: nat, now: int) returns (r: Result<Claims, AdminError>)
      requires EmailsUnique(users.users)
      modifies users
      ensures
        var who := Authenticate(old(users.users), users.hasher, email, password);
        match who
        case Success(id) =>
          && id in old(users.users).accounts
          && users.users == Rehashed(old(users.users), users.hasher, id, password, salt)
          && r == Success(IssueToken(users.users, id, now, ttl))
        case Failure(e) => users.users == old(users.users) && r == Failure(e)
    {
      var normalized := NormalizeEmail(email);
      if normalized.Failure? {
        return Failure(InvalidEmail);
      }
      var found := users.FindByEmail(normalized.value);
      if found.None? {
        assert forall id :: id in users.users.accounts ==> !HasEmail(users.users, id, normalized.value);
        return Failure(InvalidCredentials);
      }
      assert HasEmail(users.users, found.value, normalized.value);
      var admin := users.users.accounts[found.value];
      if !users.hasher.verify(password, admin.passwordHash) || !admin.isActive {
        return Failure(InvalidCredentials);
      }
      if users.hasher.needsRehash(admin.passwordHash) {
        admin := admin.(passwordHash := users.hasher.hash(password, salt));
        users.users := WithAccount(users.users, found.value, admin);
      }
      return Success(IssueToken(users.users, found.value, now, ttl));
    }
  }

  /* ----- steps ----- */

  datatype Op =
    | DoBootstrap(email: string, password: string, salt: nat)
    | DoCreate(email: string, password: string, role: Role, salt: nat)
    | DoSetActive(id: int, isActive: bool)
    | DoSetRole(id: int, role: Role)
    | DoSetPassword(id: int, password: string, salt: nat)
    | DoChangePassword(id: int, current: string, password: string, salt: nat)
    | DoLogin(email: string, password: string, salt: nat, now: int)

  ghost function Apply(h: Hasher, u: Users, op: Op): Result<Users, AdminError> {
    match op
    case DoBootstrap(email, password, salt) => Bootstrap(u, h, email, password, salt)
    case DoCreate(email, password, role, salt) => Create(u, h, email, password, role, salt)
    case DoSetActive(id, isActive) => SetActive(u, id, isActive)
    case DoSetRole(id, role) => SetRole(u, id, role)
    case DoSetPassword(id, password, salt) => SetPassword(u, h, id, password, salt)
    case DoChangePassword(id, current, password, salt) => ChangeOwnPassword(u, h, id, current, password, salt)
    case DoLogin(email, password, salt, now) =>
      var id :- Authenticate(u, h, email, password);
      Success(Rehashed(u, h, id, password, salt))
  }

  ghost function Next(h: Hasher, u: Users, op: Op): Users {
    var r := Apply(h, u, op);
    if r.Success? then r.value else u
  }

  /** The token a successful login hands out. */
  ghost predicate Issues(h: Hasher, ttl: int, u: Users, op: Op, t: Claims) {
    && op.DoLogin? && Authenticate(u, h, op.email, op.password).Success?
    && var id := Authenticate(u, h, op.email, op.password).value;
       id in u.accounts && t == IssueToken(u, id, op.now, ttl)
  }

  /** A deactivation, a change of role, or a change of password, that succeeds. */
  ghost predicate Invalidates(h: Hasher, u: Users, op: Op, id: int) {
    && Apply(h, u, op).Success?
    && match op
       case DoSetActive(i, isActive) => i == id && !isActive
       case DoSetRole(i, role) => i == id && role != u.accounts[id].role
       case DoSetPassword(i, _, _) => i == id
       case DoChangePassword(i, _, _, _) => i == id
       case _ => false
  }

  /** The state a deployment's first bootstrap leaves. */
  ghost predicate IsFounded(h: Hasher, u: Users) {
    exists email, password, salt :: Bootstrap(NO_USERS, h, email, password, salt) == Success(u)
  }

  /** Every run after a deployment's first bootstrap. */
  ghost predicate IsRun(h: Hasher, states: seq<Users>, ops: seq<Op>) {
    && |states| == |ops| + 1
    && IsFounded(h, states[0])
    && forall k: nat :: k < |ops| ==> StepAt(h, states, ops, k)
  }

  ghost predicate StepAt(h: Hasher, states: seq<Users>, ops: seq<Op>, k: nat)
    requires |states| == |ops| + 1 && k < |ops|
  {
    states[k + 1] == Next(h, states[k], ops[k])
  }

  /* ----- the invariant ----- */

  ghost predicate Sound(u: Users) {
    && EmailsUnique(u)
    && (forall id :: id in u.accounts ==> id < u.nextId)
    && exists id :: IsActiveSuperAdmin(u, id)
  }

  lemma AuthenticateFinds(u: Users, h: Hasher, email: string, password: string)
    ensures Authenticate(u, h, email, password).Success? ==>
              var id := Authenticate(u, h, email, password).value;
              id in u.accounts && u.accounts[id].isActive
              && h.verify(password, u.accounts[id].passwordHash)
              && NormalizeEmail(email) == Success(u.accounts[id].email)
  {
  }

  lemma CreateKeepsSound(u: Users, h: Hasher, email: string, password: string, role: Role, salt: nat)
    requires Sound(u) && Create(u, h, email, password, role, salt).Success?
    ensures Sound(Create(u, h, email, password, role, salt).value)
  {
    var next := Create(u, h, email, password, role, salt).value;
    var id :| IsActiveSuperAdmin(u, id);
    assert IsActiveSuperAdmin(next, id);
  }

  /** Rewriting one account, without touching its address, keeps the invariant if an
      active super administrator is left. */
  lemma RewriteKeepsSound(u: Users, id: int, row: Account)
    requires Sound(u) && id in u.accounts && row.email == u.accounts[id].email
    requires IsActiveSuperAdmin(u, id) && !OtherActiveSuperAdmin(u, id) ==> row.role.SuperAdmin? && row.isActive
    ensures Sound(WithAccount(u, id, row))
  {
    var next := WithAccount(u, id, row);
    if OtherActiveSuperAdmin(u, id) {
      var other :| other in u.accounts && other != id && IsActiveSuperAdmin(u, other);
      assert IsActiveSuperAdmin(next, other);
    } else {
      var chief :| IsActiveSuperAdmin(u, chief);
      assert chief == id;
      assert IsActiveSuperAdmin(next, id);
    }
  }

  lemma StepKeepsSound(h: Hasher, u: Users, op: Op)
    requires Sound(u)
    ensures Sound(Next(h, u, op))
  {
    if Apply(h, u, op).Success? {
      match op
      case DoBootstrap(email, password, salt) =>
        if |u.accounts| == 0 {
          CreateKeepsSound(u, h, email, password, SuperAdmin, salt);
        }
      case DoCreate(email, password, role, salt) => CreateKeepsSound(u, h, email, password, role, salt);
      case DoLogin(email, password, salt, now) =>
        AuthenticateFinds(u, h, email, password);
        var id := Authenticate(u, h, email, password).value;
        RewriteKeepsSound(u, id, Rehashed(u, h, id, password, salt).accounts[id]);
      case _ =>
        RewriteKeepsSound(u, op.id, Next(h, u, op).accounts[op.id]);
    }
  }

  lemma FirstBootstrapIsSound(h: Hasher, u: Users)
    requires IsFounded(h, u)
    ensures Sound(u)
  {
    var email, password, salt :| Bootstrap(NO_USERS, h, email, password, salt) == Success(u);
    assert IsActiveSuperAdmin(u, 1);
  }

  lemma CallKeepsSound(h: Hasher, states: seq<Users>, ops: seq<Op>, k: nat)
    requires IsRun(h, states, ops) && 0 < k < |states| && Sound(states[k - 1])
    ensures Sound(states[k])
  {
    assert StepAt(h, states, ops, k - 1);
    StepKeepsSound(h, states[k - 1], ops[k - 1]);
  }

  lemma {:induction false} RunIsSound(h: Hasher, states: seq<Users>, ops: seq<Op>, k: nat)
    requires IsRun(h, states, ops) && k < |states|
    ensures Sound(states[k])
    decreases k
  {
    if k == 0 {
      FirstBootstrapIsSound(h, states[0]);
    } else {
      RunIsSound(h, states, ops, k - 1);
      CallKeepsSound(h, states, ops, k);
    }
  }

  /** From the first bootstrap on there is always an active super administrator. */
  lemma SuperAdminRemains(h: Hasher, states: seq<Users>, ops: seq<Op>, k: nat)
    requires IsRun(h, states, ops) && k < |states|
    ensures exists id :: IsActiveSuperAdmin(states[k], id)
  {
    RunIsSound(h, states, ops, k);
  }

  /** The guard refuses a deactivation exactly when it would leave no active super
      administrator, and a demotion likewise. */
  lemma GuardIsExact(u: Users, id: int, role: Role)
    requires Sound(u) && id in u.accounts && role != SuperAdmin
    ensures SetActive(u, id, false) == Failure(LastSuperAdmin)
            <==> !exists other :: IsActiveSuperAdmin(WithAccount(u, id, u.accounts[id].(isActive := false)), other)
    ensures SetRole(u, id, role) == Failure(LastSuperAdmin)
            <==> !exists other :: IsActiveSuperAdmin(WithAccount(u, id, u.accounts[id].(role := role)), other)
  {
    var without := WithAccount(u, id, u.accounts[id].(isActive := false));
    var demoted := WithAccount(u, id, u.accounts[id].(role := role));
    assert forall other :: IsActiveSuperAdmin(without, other) <==> other != id && IsActiveSuperAdmin(u, other);
    assert forall other :: IsActiveSuperAdmin(demoted, other) <==> other != id && IsActiveSuperAdmin(u, other);
    var chief :| IsActiveSuperAdmin(u, chief);
    assert chief != id ==> OtherActiveSuperAdmin(u, id);
  }

  /* ----- tokens ----- */

  /** How one call moves an account: its session version rises by one when the call
      invalidates its sessions and stands otherwise, and then so does its role. */
  ghost predicate Moves(h: Hasher, u: Users, op: Op, next: Users, id: int)
    requires id in u.accounts
  {
    && id in next.accounts
    && next.accounts[id].sessionVersion
       == u.accounts[id].sessionVersion + (if Invalidates(h, u, op, id) then 1 else 0)
    && (!Invalidates(h, u, op, id) ==> next.accounts[id].role == u.accounts[id].role)
  }

  lemma StepMoves(h: Hasher, u: Users, op: Op, id: int)
    requires id in u.accounts && id < u.nextId
    ensures Moves(h, u, op, Next(h, u, op), id)
  {
    if op.DoLogin? {
      AuthenticateFinds(u, h, op.email, op.password);
    }
  }

  /** Whether a session survives the calls from `i` to `k`. */
  ghost predicate Undisturbed(h: Hasher, states: seq<Users>, ops: seq<Op>, i: nat, k: nat, id: int)
    requires |states| == |ops| + 1 && k <= |ops|
  {
    forall j: nat :: i <= j < k ==> !Invalidates(h, states[j], ops[j], id)
  }

  /** Session versions tell exactly whether the account was disturbed in between. */
  ghost predicate VersionsTell(h: Hasher, states: seq<Users>, ops: seq<Op>, i: nat, k: nat, id: int)
    requires |states| == |ops| + 1 && i <= k <= |ops| && id in states[i].accounts
  {
    && id in states[k].accounts
    && var a, b := states[i].accounts[id], states[k].accounts[id];
       && a.sessionVersion <= b.sessionVersion
       && (a.sessionVersion == b.sessionVersion <==> Undisturbed(h, states, ops, i, k, id))
       && (a.sessionVersion == b.sessionVersion ==> a.role == b.role)
  }

  lemma OneMoreCall(h: Hasher, states: seq<Users>, ops: seq<Op>, i: nat, k: nat, id: int)
    requires |states| == |ops| + 1 && i <= k < |ops|
    ensures Undisturbed(h, states, ops, i, k + 1, id)
            <==> Undisturbed(h, states, ops, i, k, id) && !Invalidates(h, states[k], ops[k], id)
  {
  }

  lemma {:induction false} VersionsAlwaysTell(h: Hasher, states: seq<Users>, ops: seq<Op>, i: nat, k: nat, id: int)
    requires IsRun(h, states, ops) && i <= k <= |ops| && id in states[i].accounts
    ensures VersionsTell(h, states, ops, i, k, id)
    decreases k
  {
    if i < k {
      VersionsAlwaysTell(h, states, ops, i, k - 1, id);
      CallMoves(h, states, ops, k - 1, id);
      OneMoreCall(h, states, ops, i, k - 1, id);
    }
  }

  lemma CallMoves(h: Hasher, states: seq<Users>, ops: seq<Op>, k: nat, id: int)
    requires IsRun(h, states, ops) && k < |ops| && id in states[k].accounts
    ensures Moves(h, states[k], ops[k], states[k + 1], id)
  {
    RunIsSound(h, states, ops, k);
    assert StepAt(h, states, ops, k);
    StepMoves(h, states[k], ops[k], id);
  }

  /** A login changes neither role nor session version of the account it opens. */
  lemma IssuedAsStored(h: Hasher, ttl: int, u: Users, op: Op, t: Claims)
    requires Sound(u) && Issues(h, ttl, u, op, t)
    ensures t.adminId in u.accounts && u.accounts[t.adminId].isActive
    ensures t.role == u.accounts[t.adminId].role && t.sessionVersion == u.accounts[t.adminId].sessionVersion
    ensures t.issuedAt == op.now && t.expiresAt == op.now + ttl
    ensures op.DoLogin? && Invalidates(h, u, op, t.adminId) == false
  {
    AuthenticateFinds(u, h, op.email, op.password);
  }

  /** A token opens its account exactly as long as the clock is between its issue and
      its expiry, ten seconds allowed either way, the account is active, and no
      deactivation, change of role or change of password of that account has succeeded
      since it was issued. */
  lemma TokenLivesExactly(
    h: Hasher, ttl: int, states: seq<Users>, ops: seq<Op>, i: nat, k: nat, t: Claims, now: int)
    requires IsRun(h, states, ops) && i < k <= |ops| && Issues(h, ttl, states[i], ops[i], t)
    ensures t.adminId in states[k].accounts
    ensures Resolve(states[k], Some(t), now) == Success(t.adminId)
            <==> && ops[i].now - 10 <= now < ops[i].now + ttl + 10
                 && states[k].accounts[t.adminId].isActive
                 && Undisturbed(h, states, ops, i, k, t.adminId)
  {
    RunIsSound(h, states, ops, i);
    IssuedAsStored(h, ttl, states[i], ops[i], t);
    VersionsAlwaysTell(h, states, ops, i, k, t.adminId);
  }

  /** Once disturbed a token never opens anything again, reactivation included. */
  lemma RevokedForGood(
    h: Hasher, ttl: int, states: seq<Users>, ops: seq<Op>, i: nat, j: nat, k: nat, t: Claims, now: int)
    requires IsRun(h, states, ops) && i < j < k <= |ops| && Issues(h, ttl, states[i], ops[i], t)
    requires Invalidates(h, states[j], ops[j], t.adminId)
    ensures Resolve(states[k], Some(t), now) == Failure(InvalidSession)
  {
    TokenLivesExactly(h, ttl, states, ops, i, k, t, now);
  }

  /** A token that opens an account names the account's current role. */
  lemma ResolvedRoleIsCurrent(
    h: Hasher, ttl: int, states: seq<Users>, ops: seq<Op>, i: nat, k: nat, t: Claims, now: int)
    requires IsRun(h, states, ops) && i < k <= |ops| && Issues(h, ttl, states[i], ops[i], t)
    requires Resolve(states[k], Some(t), now).Success?
    ensures t.adminId in states[k].accounts && states[k].accounts[t.adminId].role == t.role
    ensures Resolve(states[k], Some(t), now) == Success(t.adminId)
  {
    RunIsSound(h, states, ops, i);
    IssuedAsStored(h, ttl, states[i], ops[i], t);
    VersionsAlwaysTell(h, states, ops, i, k, t.adminId);
  }
}
