/** What the calls on administrative accounts store, and which password opens an
    account over a whole run (app/services/admin_users.py). */
module Passwords {
  import opened Wrappers
  import opened Text
  import opened Admin

  /* ----- addresses ----- */

  /** The only `@` is at this position. */
  ghost predicate OnlyAt(s: string, at: int) {
    0 <= at < |s| && s[at] == '@' && forall i :: 0 <= i < |s| && s[i] == '@' ==> i == at
  }

  /** One `@`, with something before it, and after it a dot that does not come first. */
  ghost predicate IsAddressAt(s: string, at: int) {
    && OnlyAt(s, at) && 0 < at < |s| - 1 && s[at + 1] != '.'
    && exists dot :: at < dot < |s| && s[dot] == '.'
  }

  ghost predicate IsAddress(s: string) {
    |s| <= 254 && ' ' !in s && exists at :: IsAddressAt(s, at)
  }

  lemma AddressSplits(s: string, at: int)
    requires OnlyAt(s, at)
    ensures Split(s, '@') == [s[..at], s[at + 1..]]
  {
    assert s == s[..at] + ['@'] + s[at + 1..];
    SplitOfFreePrefix(s[..at], s[at + 1..], '@');
    SplitOfFree(s[at + 1..], '@');
  }

  lemma SplitIsAddress(s: string) returns (at: int)
    requires |Split(s, '@')| == 2
    ensures OnlyAt(s, at)
    ensures Split(s, '@') == [s[..at], s[at + 1..]]
  {
    var parts := Split(s, '@');
    JoinOfSplit(s, '@');
    at := |parts[0]|;
    assert s == parts[0] + ['@'] + parts[1] by {
      assert Join(parts[1..], '@') == parts[1];
    }
    assert s[..at] == parts[0] && s[at + 1..] == parts[1];
    assert forall i :: 0 <= i < at ==> s[i] == parts[0][i];
    assert forall i :: at < i < |s| ==> s[i] == parts[1][i - at - 1];
  }

  lemma EmailIsAddress(s: string)
    requires LooksLikeEmail(s)
    ensures IsAddress(s)
  {
    var at := SplitIsAddress(s);
    var domain := s[at + 1..];
    var k :| 0 <= k < |domain| && domain[k] == '.';
    assert s[at + 1 + k] == '.';
    assert IsAddressAt(s, at);
  }

  lemma AddressIsEmail(s: string)
    requires IsAddress(s)
    ensures LooksLikeEmail(s)
  {
    var at :| IsAddressAt(s, at);
    AddressSplits(s, at);
    var dot :| at < dot < |s| && s[dot] == '.';
    assert s[at + 1..][dot - at - 1] == '.';
    assert s[at + 1..][0] == s[at + 1];
  }

  /** What is accepted as an address: the trimmed, lower-case form is what is stored. */
  lemma AcceptedAddressIff(email: string)
    ensures NormalizeEmail(email).Success? <==> IsAddress(Lower(Strip(email)))
    ensures NormalizeEmail(email).Success? ==> NormalizeEmail(email).value == Lower(Strip(email))
  {
    var s := Lower(Strip(email));
    if LooksLikeEmail(s) {
      EmailIsAddress(s);
    }
    if IsAddress(s) {
      AddressIsEmail(s);
    }
  }

  /* ----- what each call stores ----- */

  /** Of all accounts only this one was written. */
  ghost predicate OnlyAccountWritten(u: Users, next: Users, id: int) {
    && id in next.accounts && next.accounts.Keys == u.accounts.Keys + {id}
    && forall other :: other in u.accounts && other != id ==> next.accounts[other] == u.accounts[other]
  }

  ghost predicate IsStrong(h: Hasher, password: string) {
    12 <= |password| <= 128 && Strip(password) == password && h.printable(password)
  }

  /** An existing account is the only active super administrator. */
  ghost predicate IsOnlyChief(u: Users, id: int)
    requires id in u.accounts
  {
    && u.accounts[id].role.SuperAdmin?
    && forall other :: other in u.accounts && other != id ==>
         !(u.accounts[other].role.SuperAdmin? && u.accounts[other].isActive)
  }

  lemma CreateStores(u: Users, h: Hasher, email: string, password: string, role: Role, salt: nat)
    requires forall id :: id in u.accounts ==> id < u.nextId
    ensures Create(u, h, email, password, role, salt).Success?
            <==> && IsAddress(Lower(Strip(email))) && IsStrong(h, password)
                 && forall id :: id in u.accounts ==> u.accounts[id].email != Lower(Strip(email))
    ensures Create(u, h, email, password, role, salt).Success? ==>
              var next := Create(u, h, email, password, role, salt).value;
              && u.nextId !in u.accounts && OnlyAccountWritten(u, next, u.nextId) && next.nextId == u.nextId + 1
              && var a := next.accounts[u.nextId];
                 && a.email == Lower(Strip(email)) && a.passwordHash == h.hash(password, salt)
                 && a.role == role && a.isActive && a.sessionVersion == 1
  {
    AcceptedAddressIff(email);
  }

  /** The first account is a super administrator's; later calls change nothing. */
  lemma BootstrapStores(u: Users, h: Hasher, email: string, password: string, salt: nat)
    ensures u.accounts != map[] ==> Bootstrap(u, h, email, password, salt) == Success(u)
    ensures u.accounts == map[] ==>
              Bootstrap(u, h, email, password, salt) == Create(u, h, email, password, SuperAdmin, salt)
  {
    if u.accounts != map[] {
      assert u.accounts.Keys != {};
    }
  }

  /** Activity, role and password calls on one account: when each is accepted, what it
      stores, and that it ends the sessions of the account where it has to. */
  lemma ActiveStores(u: Users, id: int, isActive: bool)
    ensures SetActive(u, id, isActive).Success? <==> id in u.accounts && (isActive || !IsOnlyChief(u, id))
    ensures SetActive(u, id, isActive).Success? ==>
              var next := SetActive(u, id, isActive).value;
              && OnlyAccountWritten(u, next, id) && next.nextId == u.nextId
              && var a, b := u.accounts[id], next.accounts[id];
                 && b.isActive == isActive && b.email == a.email && b.role == a.role
                 && b.passwordHash == a.passwordHash
                 && b.sessionVersion == a.sessionVersion + (if isActive then 0 else 1)
  {
  }

  lemma RoleStores(u: Users, id: int, role: Role)
    ensures SetRole(u, id, role).Success? <==> id in u.accounts && (role.SuperAdmin? || !IsOnlyChief(u, id))
    ensures SetRole(u, id, role).Success? ==>
              var next := SetRole(u, id, role).value;
              && OnlyAccountWritten(u, next, id) && next.nextId == u.nextId
              && var a, b := u.accounts[id], next.accounts[id];
                 && b.role == role && b.email == a.email && b.isActive == a.isActive
                 && b.passwordHash == a.passwordHash
                 && b.sessionVersion == a.sessionVersion + (if role == a.role then 0 else 1)
  {
  }

  lemma PasswordStores(u: Users, h: Hasher, id: int, password: string, salt: nat)
    ensures SetPassword(u, h, id, password, salt).Success? <==> id in u.accounts && IsStrong(h, password)
    ensures SetPassword(u, h, id, password, salt).Success? ==>
              var next := SetPassword(u, h, id, password, salt).value;
              && OnlyAccountWritten(u, next, id) && next.nextId == u.nextId
              && var a, b := u.accounts[id], next.accounts[id];
                 && b.passwordHash == h.hash(password, salt) && b.sessionVersion == a.sessionVersion + 1
                 && b.email == a.email && b.role == a.role && b.isActive == a.isActive
  {
  }

  /** A login that succeeds renews the hash where it is out of date, of the password it
      was given; it writes nothing else, and one that fails writes nothing. */
  lemma LoginStores(u: Users, h: Hasher, email: string, password: string, salt: nat, now: int)
    ensures
      var who, next := Authenticate(u, h, email, password), Next(h, u, DoLogin(email, password, salt, now));
      if who.Failure? then next == u
      else
        && who.value in u.accounts && OnlyAccountWritten(u, next, who.value) && next.nextId == u.nextId
        && var a, b := u.accounts[who.value], next.accounts[who.value];
           && b.passwordHash == (if h.needsRehash(a.passwordHash) then h.hash(password, salt) else a.passwordHash)
           && b == a.(passwordHash := b.passwordHash)
  {
    AuthenticateFinds(u, h, email, password);
  }

  /* ----- stored addresses ----- */

  ghost predicate IsNormal(email: string) {
    NormalizeEmail(email) == Success(email)
  }

  lemma CreatedIsNormal(u: Users, h: Hasher, email: string, password: string, role: Role, salt: nat)
    requires Sound(u) && Create(u, h, email, password, role, salt).Success?
    ensures u.nextId in Create(u, h, email, password, role, salt).value.accounts
    ensures IsNormal(Create(u, h, email, password, role, salt).value.accounts[u.nextId].email)
  {
    NormalizeIsIdempotent(email);
  }

  /** The address of an account never changes, and a new account's is normal. */
  lemma StepKeepsAddress(h: Hasher, u: Users, op: Op, id: int)
    requires Sound(u) && id in Next(h, u, op).accounts
    ensures
      var next := Next(h, u, op);
      if id in u.accounts then next.accounts[id].email == u.accounts[id].email else IsNormal(next.accounts[id].email)
  {
    if Apply(h, u, op).Success? {
      match op
      case DoBootstrap(email, password, salt) =>
        BootstrapStores(u, h, email, password, salt);
        if u.accounts == map[] {
          CreateStores(u, h, email, password, SuperAdmin, salt);
          CreatedIsNormal(u, h, email, password, SuperAdmin, salt);
        }
      case DoCreate(email, password, role, salt) =>
        CreateStores(u, h, email, password, role, salt);
        CreatedIsNormal(u, h, email, password, role, salt);
      case DoLogin(email, password, _, _) => AuthenticateFinds(u, h, email, password);
      case _ =>
    }
  }

  lemma CallKeepsAddress(h: Hasher, states: seq<Users>, ops: seq<Op>, k: nat, id: int)
    requires IsRun(h, states, ops) && 0 < k <= |ops| && id in states[k].accounts
    ensures if id in states[k - 1].accounts then states[k].accounts[id].email == states[k - 1].accounts[id].email
            else IsNormal(states[k].accounts[id].email)
  {
    RunIsSound(h, states, ops, k - 1);
    assert StepAt(h, states, ops, k - 1);
    StepKeepsAddress(h, states[k - 1], ops[k - 1], id);
  }

  /** Every stored address is its own normal form, in every reachable state, so that no
      account has a second spelling. */
  lemma {:induction false} StoredAddressIsNormal(h: Hasher, states: seq<Users>, ops: seq<Op>, k: nat, id: int)
    requires IsRun(h, states, ops) && k <= |ops| && id in states[k].accounts
    ensures IsNormal(states[k].accounts[id].email)
    decreases k
  {
    if k == 0 {
      var email, password, salt :| Bootstrap(NO_USERS, h, email, password, salt) == Success(states[0]);
      NormalizeIsIdempotent(email);
    } else {
      CallKeepsAddress(h, states, ops, k, id);
      if id in states[k - 1].accounts {
        StoredAddressIsNormal(h, states, ops, k - 1, id);
      }
    }
  }

  /* ----- which password opens an account ----- */

  /** Verification accepts exactly the password that was hashed, whatever the salt. */
  ghost predicate Faithful(h: Hasher) {
    forall p, q, salt :: h.verify(p, h.hash(q, salt)) <==> p == q
  }

  ghost predicate IsHashOf(h: Hasher, stored: string, password: string) {
    exists salt :: stored == h.hash(password, salt)
  }

  /** The account's stored hash is one of this password. */
  ghost predicate HasPassword(u: Users, h: Hasher, id: int, password: string) {
    id in u.accounts && IsHashOf(h, u.accounts[id].passwordHash, password)
  }

  /** The password a successful call gives an account, if it gives it one. */
  ghost function Given(h: Hasher, u: Users, op: Op, id: int): Option<string> {
    if Apply(h, u, op).Failure? then None
    else
      match op
      case DoBootstrap(_, password, _) => if u.accounts == map[] && id == u.nextId then Some(password) else None
      case DoCreate(_, password, _, _) => if id == u.nextId then Some(password) else None
      case DoSetPassword(i, password, _) => if i == id then Some(password) else None
      case DoChangePassword(i, _, password, _) => if i == id then Some(password) else None
      case _ => None
  }

  /** In a sound state a login with any address and any password opens an account iff
      the address is the account's, the account is active, and the password is the one
      whose hash is stored. */
  lemma LoginOpensIff(u: Users, h: Hasher, id: int, password: string, email: string, x: string)
    requires Faithful(h) && EmailsUnique(u) && HasPassword(u, h, id, password)
    ensures Authenticate(u, h, email, x) == Success(id)
            <==> && NormalizeEmail(email) == Success(u.accounts[id].email)
                 && u.accounts[id].isActive && x == password
  {
    if NormalizeEmail(email) == Success(u.accounts[id].email) {
      assert HasEmail(u, id, NormalizeEmail(email).value);
      assert forall other :: HasEmail(u, other, NormalizeEmail(email).value) ==> other == id;
    }
    assert h.verify(x, u.accounts[id].passwordHash) <==> x == password;
  }

  /** An administrator's own change needs the password the account has, and another
      strong one. */
  lemma OwnChangeAcceptedIff(
    u: Users, h: Hasher, id: int, password: string, current: string, replacement: string, salt: nat)
    requires Faithful(h) && HasPassword(u, h, id, password)
    ensures ChangeOwnPassword(u, h, id, current, replacement, salt).Success?
            <==> current == password && IsStrong(h, replacement) && replacement != password
    ensures ChangeOwnPassword(u, h, id, current, replacement, salt) == Failure(InvalidPassword)
            <==> current != password
    ensures ChangeOwnPassword(u, h, id, current, replacement, salt) == Failure(PasswordUnchanged)
            <==> current == password && IsStrong(h, replacement) && replacement == password
  {
    assert h.verify(current, u.accounts[id].passwordHash) <==> current == password;
    assert h.verify(replacement, u.accounts[id].passwordHash) <==> replacement == password;
  }

  lemma GivenIsStored(h: Hasher, u: Users, op: Op, id: int)
    requires Sound(u) && Given(h, u, op, id).Some?
    ensures HasPassword(Next(h, u, op), h, id, Given(h, u, op, id).value)
  {
    match op
    case DoBootstrap(email, password, salt) =>
      BootstrapStores(u, h, email, password, salt);
      CreateStores(u, h, email, password, SuperAdmin, salt);
    case DoCreate(email, password, role, salt) => CreateStores(u, h, email, password, role, salt);
    case DoSetPassword(i, password, salt) => PasswordStores(u, h, i, password, salt);
    case DoChangePassword(i, current, password, salt) => PasswordStores(u, h, i, password, salt);
    case _ =>
  }

  /** A login renews the hash with the password it was given, which is the right one. */
  lemma LoginKeepsPassword(h: Hasher, u: Users, email: string, x: string, salt: nat, id: int, password: string)
    requires Faithful(h) && Sound(u) && HasPassword(u, h, id, password)
    requires Authenticate(u, h, email, x).Success?
    ensures Authenticate(u, h, email, x).value in u.accounts
    ensures HasPassword(Rehashed(u, h, Authenticate(u, h, email, x).value, x, salt), h, id, password)
  {
    AuthenticateFinds(u, h, email, x);
    var who := Authenticate(u, h, email, x).value;
    if who == id {
      LoginOpensIff(u, h, id, password, email, x);
      assert IsHashOf(h, h.hash(x, salt), password);
    }
  }

  lemma OthersKeepPassword(h: Hasher, u: Users, op: Op, id: int, password: string)
    requires Faithful(h) && Sound(u) && HasPassword(u, h, id, password) && Given(h, u, op, id).None?
    ensures HasPassword(Next(h, u, op), h, id, password)
  {
    if Apply(h, u, op).Success? {
      match op
      case DoBootstrap(email, p, salt) => BootstrapStores(u, h, email, p, salt);
      case DoCreate(email, p, role, salt) => CreateStores(u, h, email, p, role, salt);
      case DoSetActive(i, isActive) => ActiveStores(u, i, isActive);
      case DoSetRole(i, role) => RoleStores(u, i, role);
      case DoSetPassword(i, p, salt) => PasswordStores(u, h, i, p, salt);
      case DoChangePassword(i, current, p, salt) => PasswordStores(u, h, i, p, salt);
      case DoLogin(email, x, salt, now) => LoginKeepsPassword(h, u, email, x, salt, id, password);
    }
  }

  /** No call from `i` up to `k` gives the account another password. */
  ghost predicate NothingGiven(h: Hasher, states: seq<Users>, ops: seq<Op>, i: nat, k: nat, id: int)
    requires |states| == |ops| + 1 && k <= |ops|
  {
    forall j: nat :: i <= j < k ==> Given(h, states[j], ops[j], id).None?
  }

  lemma CallKeepsPassword(h: Hasher, states: seq<Users>, ops: seq<Op>, k: nat, id: int, password: string)
    requires Faithful(h) && IsRun(h, states, ops) && 0 < k <= |ops|
    requires HasPassword(states[k - 1], h, id, password) && Given(h, states[k - 1], ops[k - 1], id).None?
    ensures HasPassword(states[k], h, id, password)
  {
    RunIsSound(h, states, ops, k - 1);
    assert StepAt(h, states, ops, k - 1);
    OthersKeepPassword(h, states[k - 1], ops[k - 1], id, password);
  }

  lemma {:induction false} PasswordStands(
    h: Hasher, states: seq<Users>, ops: seq<Op>, i: nat, k: nat, id: int, password: string)
    requires Faithful(h) && IsRun(h, states, ops) && i <= k <= |ops|
    requires HasPassword(states[i], h, id, password) && NothingGiven(h, states, ops, i, k, id)
    ensures HasPassword(states[k], h, id, password)
    decreases k
  {
    if i < k {
      PasswordStands(h, states, ops, i, k - 1, id, password);
      CallKeepsPassword(h, states, ops, k, id, password);
    }
  }

  /** What a login at `k` needs, when `password` is the account's. */
  ghost predicate OpensWith(h: Hasher, u: Users, id: int, password: string) {
    && id in u.accounts
    && forall email, x ::
         Authenticate(u, h, email, x) == Success(id)
         <==> && NormalizeEmail(email) == Success(u.accounts[id].email)
              && u.accounts[id].isActive && x == password
  }

  lemma StoredPasswordOpens(h: Hasher, states: seq<Users>, ops: seq<Op>, k: nat, id: int, password: string)
    requires Faithful(h) && IsRun(h, states, ops) && k <= |ops| && HasPassword(states[k], h, id, password)
    ensures OpensWith(h, states[k], id, password)
  {
    RunIsSound(h, states, ops, k);
    forall email, x
      ensures Authenticate(states[k], h, email, x) == Success(id)
              <==> && NormalizeEmail(email) == Success(states[k].accounts[id].email)
                   && states[k].accounts[id].isActive && x == password
    {
      LoginOpensIff(states[k], h, id, password, email, x);
    }
  }

  /** The last password given is the only one that opens an account. In every run, after
      a call that created the account with a password, or set or changed it, and until
      another such call, a login opens the account iff it names its address, the account
      is active and the password is that one; whatever else is done in between, logins
      that renew the stored hash included. */
  lemma LastGivenPasswordOpens(
    h: Hasher, states: seq<Users>, ops: seq<Op>, i: nat, k: nat, id: int, password: string)
    requires Faithful(h) && IsRun(h, states, ops) && i < k <= |ops|
    requires Given(h, states[i], ops[i], id) == Some(password) && NothingGiven(h, states, ops, i + 1, k, id)
    ensures OpensWith(h, states[k], id, password)
  {
    RunIsSound(h, states, ops, i);
    assert StepAt(h, states, ops, i);
    GivenIsStored(h, states[i], ops[i], id);
    PasswordStands(h, states, ops, i + 1, k, id, password);
    StoredPasswordOpens(h, states, ops, k, id, password);
  }

  /** The same for the password of the first bootstrap. */
  lemma FoundersPasswordOpens(
    h: Hasher, states: seq<Users>, ops: seq<Op>, k: nat, email: string, password: string, salt: nat)
    requires Faithful(h) && IsRun(h, states, ops) && k <= |ops|
    requires Bootstrap(NO_USERS, h, email, password, salt) == Success(states[0])
    requires NothingGiven(h, states, ops, 0, k, 1)
    ensures OpensWith(h, states[k], 1, password)
  {
    BootstrapStores(NO_USERS, h, email, password, salt);
    CreateStores(NO_USERS, h, email, password, SuperAdmin, salt);
    PasswordStands(h, states, ops, 0, k, 1, password);
    StoredPasswordOpens(h, states, ops, k, 1, password);
  }
}
