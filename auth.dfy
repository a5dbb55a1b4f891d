/**
 * The authentication service: password login with a lockout after repeated
 * failures, registration, and the refresh-token gate. Password hashing and
 * token signing are outside the model: `verify` stands for the hash check and
 * a refresh token is represented by the subject it carries once it verifies.
 */
module Auth {
  import opened Wrappers
  import opened Errors
  import opened Users

  /** The failed-login count at which an account locks. */
  const MAX_LOGIN_ATTEMPTS: nat := 5

  /** The user row as the login attempt leaves it, and what the caller is told. */
  datatype Attempt = Attempt(user: User, result: Result<User, Failure>)

  /**
   * `validateUser` once the user is found: only an active account may try its
   * password; a wrong one counts a failure and locks the account at the
   * fifth, a right one clears the count.
   */
  function Validated(u: User, passwordOk: bool): (a: Attempt)
    ensures u.status != Active ==> a.user == u && a.result.Err?
    ensures a.result.Ok? <==> u.status == Active && passwordOk
    ensures a.result.Ok? ==> a.user == u.(loginAttempts := 0) && a.result.value == a.user
    ensures u.status == Active && !passwordOk ==>
      && a.user == u.(loginAttempts := u.loginAttempts + 1,
                      status := if u.loginAttempts + 1 >= MAX_LOGIN_ATTEMPTS then Locked else Active)
      && a.result == Err(Unauthorized(if u.loginAttempts + 1 >= MAX_LOGIN_ATTEMPTS then TooManyAttempts else BadCredentials))
    ensures a.result.Err? ==> a.result.error.Unauthorized?
  {
    match u.status
    case Locked => Attempt(u, Err(Unauthorized(AccountLocked)))
    case Inactive => Attempt(u, Err(Unauthorized(AccountInactive)))
    case Suspended => Attempt(u, Err(Unauthorized(AccountSuspended)))
    case PendingVerification => Attempt(u, Err(Unauthorized(AccountPending)))
    case Active =>
      if !passwordOk then
        var counted := u.(loginAttempts := u.loginAttempts + 1);
        if counted.loginAttempts >= MAX_LOGIN_ATTEMPTS then
          Attempt(counted.(status := Locked), Err(Unauthorized(TooManyAttempts)))
        else Attempt(counted, Err(Unauthorized(BadCredentials)))
      else
        var cleared := u.(loginAttempts := 0);
        Attempt(cleared, Ok(cleared))
  }

  /** The user a credential names: the first whose username or email it is. */
  function Credited(users: seq<User>, credential: string): (r: Option<User>)
    ensures r.Some? ==> r.value in users && (r.value.username == credential || r.value.email == credential)
    ensures r.None? <==> forall u :: u in users ==> u.username != credential && u.email != credential
  {
    FirstUser(users, (w: User) => w.username == credential || w.email == credential)
  }

  /** The whole login check over the table: the table it leaves and the answer. */
  datatype Login = Login(users: seq<User>, result: Result<User, Failure>)

  function LoggedIn(users: seq<User>, credential: string, password: string, verify: (string, string) -> bool): (l: Login)
    ensures Credited(users, credential).None? ==> l == Login(users, Err(Unauthorized(BadCredentials)))
    ensures Credited(users, credential).Some? ==>
      var u := Credited(users, credential).value;
      var a := Validated(u, verify(u.password, password));
      l == Login(ReplaceUser(users, a.user), a.result)
  {
    match Credited(users, credential)
    case None => Login(users, Err(Unauthorized(BadCredentials)))
    case Some(u) =>
      var a := Validated(u, verify(u.password, password));
      Login(ReplaceUser(users, a.user), a.result)
  }

  // ---------------------------------------------------------------- the lockout state machine

  /** A locked account stays locked whatever password is tried, and its row does not change. */
  lemma LockedIsAbsorbing(u: User, passwordOk: bool)
    requires u.status == Locked
    ensures Validated(u, passwordOk) == Attempt(u, Err(Unauthorized(AccountLocked)))
  {
  }

  /** Active accounts stay below the lockout count: an attempt either keeps that or locks the account. */
  lemma ActiveBelowLimitIsKept(u: User, passwordOk: bool)
    requires u.status == Active && u.loginAttempts < MAX_LOGIN_ATTEMPTS
    ensures var v := Validated(u, passwordOk).user;
      (v.status == Active && v.loginAttempts < MAX_LOGIN_ATTEMPTS) || (v.status == Locked && v.loginAttempts == MAX_LOGIN_ATTEMPTS)
  {
  }

  /** No active account has reached the lockout count. */
  ghost predicate LockoutConsistent(users: seq<User>)
  {
    forall u :: u in users ==> u.status == Active ==> u.loginAttempts < MAX_LOGIN_ATTEMPTS
  }

  /** A login attempt, whatever its outcome, keeps every active account below the lockout count. */
  lemma LoginKeepsLockoutConsistent(users: seq<User>, credential: string, password: string, verify: (string, string) -> bool)
    requires LockoutConsistent(users)
    ensures LockoutConsistent(LoggedIn(users, credential, password, verify).users)
  {
    var l := LoggedIn(users, credential, password, verify);
    if Credited(users, credential).Some? {
      var u := Credited(users, credential).value;
      var v := Validated(u, verify(u.password, password)).user;
      forall w | w in l.users && w.status == Active ensures w.loginAttempts < MAX_LOGIN_ATTEMPTS {
        var i :| 0 <= i < |l.users| && l.users[i] == w;
        if users[i].id == u.id {
          assert w == v;
          if u.status == Active {
            ActiveBelowLimitIsKept(u, verify(u.password, password));
          }
        } else {
          assert users[i] in users;
        }
      }
    }
  }

  /**
   * The account after n wrong passwords in a row. Its attempt count and lock
   * are stated by `FailuresCount` and `FailuresLock`.
   */
  function AfterFailures(u: User, n: nat): (v: User)
    ensures v.id == u.id && v.username == u.username && v.email == u.email && v.password == u.password
    decreases n
  {
    if n == 0 then u else AfterFailures(Validated(u, false).user, n - 1)
  }

  /**
   * From an active account with k failures, each of the next wrong passwords
   * short of the limit is refused as bad credentials and leaves it active, one
   * failure further on.
   */
  lemma {:induction false} FailuresCount(u: User, n: nat)
    requires u.status == Active && u.loginAttempts + n < MAX_LOGIN_ATTEMPTS
    ensures AfterFailures(u, n) == u.(loginAttempts := u.loginAttempts + n)
    ensures Validated(AfterFailures(u, n), false).result == Err(Unauthorized(
      if u.loginAttempts + n + 1 == MAX_LOGIN_ATTEMPTS then TooManyAttempts else BadCredentials))
    decreases n
  {
    if n > 0 {
      var next := Validated(u, false).user;
      FailuresCount(next, n - 1);
    }
  }

  /** An active account is locked by exactly the wrong passwords that take its count to the limit. */
  lemma {:induction false} FailuresLock(u: User)
    requires u.status == Active && u.loginAttempts < MAX_LOGIN_ATTEMPTS
    ensures var n := MAX_LOGIN_ATTEMPTS - u.loginAttempts;
      && AfterFailures(u, n).status == Locked
      && AfterFailures(u, n).loginAttempts == MAX_LOGIN_ATTEMPTS
      && forall k :: 0 <= k < n ==> AfterFailures(u, k).status == Active
  {
    var n := MAX_LOGIN_ATTEMPTS - u.loginAttempts;
    FailuresCount(u, n - 1);
    forall k | 0 <= k < n ensures AfterFailures(u, k).status == Active {
      FailuresCount(u, k);
    }
    AfterFailuresStep(u, n - 1);
  }

  /** One more failure after n is the failure of the account after n. */
  lemma {:induction false} AfterFailuresStep(u: User, n: nat)
    ensures AfterFailures(u, n + 1) == Validated(AfterFailures(u, n), false).user
    decreases n
  {
    if n > 0 {
      AfterFailuresStep(Validated(u, false).user, n - 1);
    }
  }

  /** A fresh active account locks at the fifth wrong password and not before. */
  lemma FreshAccountLocksAtFifthFailure(u: User)
    requires u.status == Active && u.loginAttempts == 0
    ensures AfterFailures(u, 4).status == Active
    ensures Validated(AfterFailures(u, 4), false).result == Err(Unauthorized(TooManyAttempts))
    ensures AfterFailures(u, 5).status == Locked
  {
    FailuresLock(u);
    FailuresCount(u, 4);
  }

  // ---------------------------------------------------------------- registration and refresh

  /**
   * `register`: refused when the first user holding the username or the email
   * does (the username compared first); otherwise a pending account whose
   * nickname is its username, with no avatar and no phone number.
   */
  function Registered(users: seq<User>, id: nat, username: string, email: string, hashed: string): (r: Result<User, Failure>)
    ensures r.Ok? <==> forall u :: u in users ==> u.username != username && u.email != email
    ensures r.Err? ==> r.error in {Conflict(UsernameTaken), Conflict(EmailTaken)}
    ensures r == Err(Conflict(UsernameTaken)) ==> exists u :: u in users && u.username == username
    ensures r == Err(Conflict(EmailTaken)) ==> exists u :: u in users && u.email == email && u.username != username
    ensures r.Ok? ==> r.value == User(id, username, username, None, hashed, email, false, None, PendingVerification, 0, [])
  {
    match FirstUser(users, (w: User) => w.username == username || w.email == email)
    case None => Ok(User(id, username, username, None, hashed, email, false, None, PendingVerification, 0, []))
    case Some(e) => if e.username == username then Err(Conflict(UsernameTaken)) else Err(Conflict(EmailTaken))
  }

  /** Registering is creating the account with the username as nickname and no avatar or phone number. */
  lemma RegisterIsCreate(users: seq<User>, id: nat, username: string, email: string, hashed: string)
    ensures Registered(users, id, username, email, hashed) == CreateUser(users, id, username, username, email, hashed, None, None)
  {
    FirstUserAgrees(users, (w: User) => w.username == username || w.email == email,
                    u => Clashes(u, username, email, None));
  }

  /**
   * `refreshToken`: a token that fails to verify (`sub` is None), a subject
   * with no user, or a user that is not active all give the same refusal.
   */
  function Refreshed(users: seq<User>, sub: Option<nat>): (r: Result<User, Failure>)
    ensures r.Err? ==> r.error == Unauthorized(TokenInvalid)
    ensures r.Ok? ==> sub.Some? && r.value in users && r.value.id == sub.value && r.value.status == Active
    ensures (
              && sub.Some? && (exists u :: u in users && u.id == sub.value)
              && (forall u :: u in users && u.id == sub.value ==> u.status == Active)
            ) ==> r.Ok?
    ensures sub.Some? && (forall u :: u in users && u.id == sub.value ==> u.status != Active) ==> r.Err?
  {
    if sub.None? then Err(Unauthorized(TokenInvalid))
    else
      match FirstUser(users, (w: User) => w.id == sub.value)
      case None => Err(Unauthorized(TokenInvalid))
      case Some(u) => if u.status != Active then Err(Unauthorized(TokenInvalid)) else Ok(u)
  }

  /** The service over the user table. */
  class AuthService {
    const store: UserStore

    constructor(store: UserStore)
      ensures this.store == store
    {
      this.store := store;
    }

    /** `validateUser` followed by the flush of the row it changed. */
    method ValidateUser(credential: string, password: string, verify: (string, string) -> bool)
      returns (r: Result<User, Failure>)
      requires store.Valid()
      modifies store
      ensures store.Valid() && store.nextId == old(store.nextId) && store.roleTable == old(store.roleTable)
      ensures LoggedIn(old(store.users), credential, password, verify) == Login(store.users, r)
    {
      var found := FirstUser(store.users, (w: User) => w.username == credential || w.email == credential);
      if found.None? {
        return Err(Unauthorized(BadCredentials));
      }
      var user := found.value;
      var a := Validated(user, verify(user.password, password));
      ReplaceKeepsKeysUnique(store.users, user, a.user);
      store.Save(a.user);
      r := a.result;
    }

    /** `register`, with the token pair left out. */
    method Register(username: string, email: string, hashed: string) returns (r: Result<User, Failure>)
      requires store.Valid()
      modifies store
      ensures store.Valid() && store.roleTable == old(store.roleTable)
      ensures r == Registered(old(store.users), old(store.nextId), username, email, hashed)
      ensures r.Ok? ==> store.users == old(store.users) + [r.value] && store.nextId == old(store.nextId) + 1
      ensures r.Err? ==> store.users == old(store.users) && store.nextId == old(store.nextId)
    {
      RegisterIsCreate(store.users, store.nextId, username, email, hashed);
      r := store.Create(username, username, email, hashed, None, None);
    }
  }
}
