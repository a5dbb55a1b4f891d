/**
 * User accounts: the user and role records, and the user service's writes
 * (create, update, change of password, role assignment and removal) over the
 * user table. The table keeps usernames, emails and phone numbers unique,
 * as the store's unique constraints demand; the services check for clashes
 * before they write. Password hashing is an oracle: the caller supplies the
 * hash of the new password, and `verify` decides whether a plain password
 * matches a stored hash.
 */
module Users {
  import opened Wrappers
  import opened Errors
  import opened Seqs
  import BaseService

  datatype UserStatus = Active | Inactive | Locked | PendingVerification | Suspended

  /** A role as loaded with its permissions: its id and the permission codes. */
  datatype Role = Role(id: nat, codes: seq<string>)

  datatype User = User(
    id: nat,
    username: string,
    nickname: string,
    avatar: Option<string>,
    password: string,
    email: string,
    isEmailVerified: bool,
    phoneNumber: Option<string>,
    status: UserStatus,
    loginAttempts: nat,
    roles: seq<Role>)

  function UserId(u: User): nat { u.id }

  /** A JavaScript-truthy optional string: supplied and not empty. */
  predicate Truthy(s: Option<string>)
  {
    s.Some? && s.value != ""
  }

  /** The first user satisfying p (the store's `findOne` with that condition). */
  function FirstUser(users: seq<User>, p: User -> bool): (r: Option<User>)
    ensures r.Some? ==> r.value in users && p(r.value)
    ensures r.None? <==> forall u :: u in users ==> !p(u)
  {
    if |users| == 0 then None
    else if p(users[0]) then Some(users[0])
    else
      var r := FirstUser(users[1..], p);
      assert users == [users[0]] + users[1..];
      r
  }

  /** Predicates that agree on the table pick the same first user. */
  lemma {:induction false} FirstUserAgrees(users: seq<User>, p: User -> bool, q: User -> bool)
    requires forall u :: u in users ==> p(u) == q(u)
    ensures FirstUser(users, p) == FirstUser(users, q)
    decreases |users|
  {
    if |users| > 0 {
      assert forall u :: u in users[1..] ==> u in users;
      FirstUserAgrees(users[1..], p, q);
    }
  }

  /** No two users share an id, a username, an email, or a phone number. */
  ghost predicate UniqueKeys(users: seq<User>)
  {
    forall i, j :: 0 <= i < |users| && 0 <= j < |users| && i != j ==>
      && users[i].id != users[j].id
      && users[i].username != users[j].username
      && users[i].email != users[j].email
      && (users[i].phoneNumber.None? || users[i].phoneNumber != users[j].phoneNumber)
  }

  /** The table with the user carrying u's id replaced by u. */
  function ReplaceUser(users: seq<User>, u: User): (r: seq<User>)
    ensures |r| == |users|
    ensures forall i :: 0 <= i < |users| ==> r[i] == (if users[i].id == u.id then u else users[i])
  {
    seq(|users|, i requires 0 <= i < |users| => if users[i].id == u.id then u else users[i])
  }

  // ---------------------------------------------------------------- create

  /** Whether a user clashes with a new account's username, email, or (when given) phone number. */
  predicate Clashes(u: User, username: string, email: string, phoneNumber: Option<string>)
  {
    u.username == username || u.email == email || (Truthy(phoneNumber) && u.phoneNumber == phoneNumber)
  }

  /**
   * The conflict a new account meets: the first clashing user decides, and its
   * username is compared first, then its email, then its phone number.
   */
  function CreateConflict(users: seq<User>, username: string, email: string, phoneNumber: Option<string>): (r: Option<Failure>)
    ensures r.None? <==> forall u :: u in users ==> !Clashes(u, username, email, phoneNumber)
    ensures r == Some(Conflict(UsernameTaken)) ==> exists u :: u in users && u.username == username
    ensures r == Some(Conflict(EmailTaken)) ==> exists u :: u in users && u.email == email
    ensures r == Some(Conflict(PhoneTaken)) ==> exists u :: u in users && u.phoneNumber == phoneNumber
    ensures r.Some? ==> r.value in {Conflict(UsernameTaken), Conflict(EmailTaken), Conflict(PhoneTaken)}
  {
    match FirstUser(users, u => Clashes(u, username, email, phoneNumber))
    case None => None
    case Some(e) =>
      if e.username == username then Some(Conflict(UsernameTaken))
      else if e.email == email then Some(Conflict(EmailTaken))
      else Some(Conflict(PhoneTaken))
  }

  /**
   * `create` in the user service: refused on a clash, otherwise a pending,
   * unverified account with no roles and no failed logins, keeping an avatar
   * and a phone number only when they are non-empty.
   */
  function CreateUser(users: seq<User>, id: nat, username: string, nickname: string, email: string, hashed: string,
                      avatar: Option<string>, phoneNumber: Option<string>): (r: Result<User, Failure>)
    ensures r.Ok? <==> forall u :: u in users ==> !Clashes(u, username, email, phoneNumber)
    ensures r.Err? ==> r.error in {Conflict(UsernameTaken), Conflict(EmailTaken), Conflict(PhoneTaken)}
    ensures r.Ok? ==>
      && r.value.id == id && r.value.username == username && r.value.nickname == nickname
      && r.value.email == email && r.value.password == hashed
      && r.value.status == PendingVerification && !r.value.isEmailVerified
      && r.value.loginAttempts == 0 && r.value.roles == []
      && (r.value.avatar.Some? <==> Truthy(avatar)) && (Truthy(avatar) ==> r.value.avatar == avatar)
      && (r.value.phoneNumber.Some? <==> Truthy(phoneNumber)) && (Truthy(phoneNumber) ==> r.value.phoneNumber == phoneNumber)
  {
    match CreateConflict(users, username, email, phoneNumber)
    case Some(f) => Err(f)
    case None =>
      Ok(User(id, username, nickname,
              if Truthy(avatar) then avatar else None,
              hashed, email, false,
              if Truthy(phoneNumber) then phoneNumber else None,
              PendingVerification, 0, []))
  }

  /** A new account that passed the clash check keeps the keys unique. */
  lemma CreateKeepsKeysUnique(users: seq<User>, id: nat, username: string, nickname: string, email: string, hashed: string,
                              avatar: Option<string>, phoneNumber: Option<string>)
    requires UniqueKeys(users) && forall u :: u in users ==> u.id != id
    requires CreateUser(users, id, username, nickname, email, hashed, avatar, phoneNumber).Ok?
    ensures UniqueKeys(users + [CreateUser(users, id, username, nickname, email, hashed, avatar, phoneNumber).value])
  {
    var n := CreateUser(users, id, username, nickname, email, hashed, avatar, phoneNumber).value;
    var t := users + [n];
    forall i, j | 0 <= i < |t| && 0 <= j < |t| && i != j
      ensures t[i].id != t[j].id && t[i].username != t[j].username && t[i].email != t[j].email
      ensures t[i].phoneNumber.None? || t[i].phoneNumber != t[j].phoneNumber
    {
      if i == |users| {
        assert t[j] in users && !Clashes(t[j], username, email, phoneNumber);
      } else if j == |users| {
        assert t[i] in users && !Clashes(t[i], username, email, phoneNumber);
      }
    }
  }

  // ---------------------------------------------------------------- update

  /** An update request: every field optional. */
  datatype UserChanges = UserChanges(
    username: Option<string>,
    email: Option<string>,
    phoneNumber: Option<string>,
    nickname: Option<string>,
    avatar: Option<string>,
    status: Option<UserStatus>)

  /** Whether some user already holds the value p looks for. */
  predicate Taken(users: seq<User>, p: User -> bool)
  {
    FirstUser(users, p).Some?
  }

  /** The username step: a non-empty new username that differs must be free. */
  function ChangeUsername(users: seq<User>, u: User, username: Option<string>): (r: Result<User, Failure>)
    ensures r.Err? <==> Truthy(username) && username.value != u.username && exists w :: w in users && w.username == username.value
    ensures r.Err? ==> r.error == Conflict(UsernameTaken)
    ensures r.Ok? ==> r.value == if Truthy(username) then u.(username := username.value) else u
  {
    if Truthy(username) && username.value != u.username then
      if Taken(users, (w: User) => w.username == username.value) then Err(Conflict(UsernameTaken))
      else Ok(u.(username := username.value))
    else Ok(u)
  }

  /** The email step: a new email must be free, and it needs verifying again. */
  function ChangeEmail(users: seq<User>, u: User, email: Option<string>): (r: Result<User, Failure>)
    ensures r.Err? <==> Truthy(email) && email.value != u.email && exists w :: w in users && w.email == email.value
    ensures r.Err? ==> r.error == Conflict(EmailTaken)
    ensures r.Ok? ==> r.value == if Truthy(email) && email.value != u.email then u.(email := email.value, isEmailVerified := false) else u
  {
    if Truthy(email) && email.value != u.email then
      if Taken(users, (w: User) => w.email == email.value) then Err(Conflict(EmailTaken))
      else Ok(u.(email := email.value, isEmailVerified := false))
    else Ok(u)
  }

  /** The phone step: a new phone number must be free. */
  function ChangePhone(users: seq<User>, u: User, phoneNumber: Option<string>): (r: Result<User, Failure>)
    ensures r.Err? <==> Truthy(phoneNumber) && phoneNumber != u.phoneNumber && exists w :: w in users && w.phoneNumber == phoneNumber
    ensures r.Err? ==> r.error == Conflict(PhoneTaken)
    ensures r.Ok? ==> r.value == if Truthy(phoneNumber) then u.(phoneNumber := phoneNumber) else u
  {
    if Truthy(phoneNumber) && phoneNumber != u.phoneNumber then
      if Taken(users, (w: User) => w.phoneNumber == phoneNumber) then Err(Conflict(PhoneTaken))
      else Ok(u.(phoneNumber := phoneNumber))
    else Ok(u)
  }

  /** Nickname, avatar and status are overwritten only by truthy values. */
  function ChangeProfile(u: User, c: UserChanges): (r: User)
    ensures r.id == u.id && r.username == u.username && r.email == u.email && r.phoneNumber == u.phoneNumber
    ensures r.password == u.password && r.isEmailVerified == u.isEmailVerified
    ensures r.loginAttempts == u.loginAttempts && r.roles == u.roles
    ensures r.nickname == (if Truthy(c.nickname) then c.nickname.value else u.nickname)
    ensures r.avatar == (if Truthy(c.avatar) then c.avatar else u.avatar)
    ensures r.status == (if c.status.Some? then c.status.value else u.status)
  {
    var u := if Truthy(c.nickname) then u.(nickname := c.nickname.value) else u;
    var u := if Truthy(c.avatar) then u.(avatar := c.avatar) else u;
    if c.status.Some? then u.(status := c.status.value) else u
  }

  /** `update` in the user service: the user as its flush writes it, or the first refusal. */
  function UpdateUser(users: seq<User>, id: nat, c: UserChanges): (r: Result<User, Failure>)
    ensures BaseService.Detail(users, UserId, id).Err? ==> r == Err(NotFound(EntityMissing(id)))
    ensures r.Err? ==> r.error in {NotFound(EntityMissing(id)), Conflict(UsernameTaken), Conflict(EmailTaken), Conflict(PhoneTaken)}
  {
    match BaseService.Detail(users, UserId, id)
    case Err(e) => Err(e)
    case Ok(u) => Changed(users, u, c)
  }

  /** The username, email and phone steps in turn, then the profile fields. */
  function Changed(users: seq<User>, u: User, c: UserChanges): (r: Result<User, Failure>)
  {
    match ChangeUsername(users, u, c.username)
    case Err(e) => Err(e)
    case Ok(u) =>
      match ChangeEmail(users, u, c.email)
      case Err(e) => Err(e)
      case Ok(u) =>
        match ChangePhone(users, u, c.phoneNumber)
        case Err(e) => Err(e)
        case Ok(u) => Ok(ChangeProfile(u, c))
  }

  /**
   * A successful update keeps the id, password, failed-login count and roles;
   * every other field keeps its value unless a truthy value was supplied; and
   * a changed email is unverified.
   */
  lemma UpdateTouchesOnlySupplied(users: seq<User>, id: nat, c: UserChanges)
    requires UpdateUser(users, id, c).Ok?
    ensures var old_ := BaseService.Detail(users, UserId, id).value; var u := UpdateUser(users, id, c).value;
      && u.id == id && u.password == old_.password && u.loginAttempts == old_.loginAttempts && u.roles == old_.roles
      && u.username == (if Truthy(c.username) then c.username.value else old_.username)
      && u.email == (if Truthy(c.email) then c.email.value else old_.email)
      && u.phoneNumber == (if Truthy(c.phoneNumber) then c.phoneNumber else old_.phoneNumber)
      && u.nickname == (if Truthy(c.nickname) then c.nickname.value else old_.nickname)
      && u.avatar == (if Truthy(c.avatar) then c.avatar else old_.avatar)
      && u.status == (if c.status.Some? then c.status.value else old_.status)
      && (u.email != old_.email ==> !u.isEmailVerified)
      && (u.email == old_.email ==> u.isEmailVerified == old_.isEmailVerified)
  {
  }

  /** Replacing a user by one whose keys no other user holds keeps the keys unique. */
  lemma ReplaceKeepsKeysUnique(users: seq<User>, u: User, next: User)
    requires UniqueKeys(users) && u in users && next.id == u.id
    requires forall w :: w in users && w != u ==>
      w.username != next.username && w.email != next.email && (next.phoneNumber.None? || w.phoneNumber != next.phoneNumber)
    ensures UniqueKeys(ReplaceUser(users, next))
  {
    var t := ReplaceUser(users, next);
    var k :| 0 <= k < |users| && users[k] == u;
    forall i | 0 <= i < |users| && users[i].id == u.id ensures i == k { }
  }

  /** A successful update keeps the keys unique. */
  lemma UpdateKeepsKeysUnique(users: seq<User>, id: nat, c: UserChanges)
    requires UniqueKeys(users) && UpdateUser(users, id, c).Ok?
    ensures UniqueKeys(ReplaceUser(users, UpdateUser(users, id, c).value))
  {
    var u := BaseService.Detail(users, UserId, id).value;
    var next := UpdateUser(users, id, c).value;
    forall w | w in users && w != u
      ensures w.username != next.username && w.email != next.email && (next.phoneNumber.None? || w.phoneNumber != next.phoneNumber)
    {
      var i :| 0 <= i < |users| && users[i] == w;
      var k :| 0 <= k < |users| && users[k] == u;
    }
    ReplaceKeepsKeysUnique(users, u, next);
  }

  // ---------------------------------------------------------------- password and roles

  /**
   * `changePassword`: the old password must match the stored hash, then the
   * new one must differ from it; the stored hash becomes the new password's.
   */
  function PasswordChanged(users: seq<User>, id: nat, oldPassword: string, newPassword: string, hashed: string,
                          verify: (string, string) -> bool): (r: Result<User, Failure>)
    ensures BaseService.Detail(users, UserId, id).Err? ==> r == Err(NotFound(EntityMissing(id)))
    ensures BaseService.Detail(users, UserId, id).Ok? ==>
      var u := BaseService.Detail(users, UserId, id).value;
      && (!verify(u.password, oldPassword) ==> r == Err(BadRequest(WrongOldPassword)))
      && (verify(u.password, oldPassword) && oldPassword == newPassword ==> r == Err(BadRequest(SamePassword)))
      && (r.Ok? ==> verify(u.password, oldPassword) && oldPassword != newPassword && r.value == u.(password := hashed))
    ensures var d := BaseService.Detail(users, UserId, id);
      d.Ok? && verify(d.value.password, oldPassword) && oldPassword != newPassword ==> r.Ok?
  {
    match BaseService.Detail(users, UserId, id)
    case Err(e) => Err(e)
    case Ok(u) =>
      if !verify(u.password, oldPassword) then Err(BadRequest(WrongOldPassword))
      else if oldPassword == newPassword then Err(BadRequest(SamePassword))
      else Ok(u.(password := hashed))
  }

  /**
   * `assignRoles`: the roles of the table with a requested id; when their
   * number differs from the number of requested ids the request is refused,
   * otherwise they replace the user's roles.
   */
  function RolesAssigned(users: seq<User>, roleTable: seq<Role>, id: nat, roleIds: seq<nat>): (r: Result<User, Failure>)
    ensures BaseService.Detail(users, UserId, id).Err? ==> r == Err(NotFound(EntityMissing(id)))
    ensures r.Err? ==> r.error in {NotFound(EntityMissing(id)), NotFound(SomeRolesMissing)}
    ensures r.Ok? ==>
      var u := BaseService.Detail(users, UserId, id).value;
      && r.value == u.(roles := r.value.roles)
      && |r.value.roles| == |roleIds|
      && forall x :: x in r.value.roles <==> x in roleTable && x.id in roleIds
  {
    match BaseService.Detail(users, UserId, id)
    case Err(e) => Err(e)
    case Ok(u) =>
      var found := Requested(roleTable, roleIds);
      if |found| != |roleIds| then Err(NotFound(SomeRolesMissing))
      else Ok(u.(roles := found))
  }

  function RoleId(x: Role): nat { x.id }

  /** `find(Role, { id: $in roleIds })`: the roles of the table whose id was asked for, in table order. */
  function Requested(roleTable: seq<Role>, roleIds: seq<nat>): (found: seq<Role>)
    ensures |found| <= |roleTable|
    ensures forall x :: x in found <==> x in roleTable && x.id in roleIds
  {
    Filter(roleTable, (x: Role) => x.id in roleIds)
  }

  /**
   * When neither the request nor the role table repeats an id, the roles are
   * assigned exactly when every requested id names a role of the table.
   */
  lemma RolesAssignedIffAllExist(users: seq<User>, roleTable: seq<Role>, id: nat, roleIds: seq<nat>)
    requires BaseService.Detail(users, UserId, id).Ok?
    requires DistinctKeys(roleTable, RoleId) && DistinctKeys(roleIds, Identity)
    ensures RolesAssigned(users, roleTable, id, roleIds).Ok? <==>
      forall k :: k in roleIds ==> exists x :: x in roleTable && x.id == k
  {
    var found := Requested(roleTable, roleIds);
    FilterKeepsDistinctKeys(roleTable, (x: Role) => x.id in roleIds, RoleId);
    KeySetSize(found, RoleId);
    KeySetSize(roleIds, Identity);
    var have := KeySet(found, RoleId);
    var want := KeySet(roleIds, Identity);
    assert have <= want;
    SubsetSize(have, want);
    if forall k :: k in roleIds ==> exists x :: x in roleTable && x.id == k {
      assert want <= have by {
        forall k | k in want ensures k in have {
          var x :| x in roleTable && x.id == k;
          assert x in found;
        }
      }
      assert have == want;
    } else {
      var k :| k in roleIds && forall x :: x in roleTable ==> x.id != k;
      assert k in want && k !in have;
    }
  }

  /** `removeUserRoles`: the user keeps no role. */
  function RolesCleared(users: seq<User>, id: nat): (r: Result<User, Failure>)
    ensures r.Err? <==> BaseService.Detail(users, UserId, id).Err?
    ensures r.Err? ==> r.error == NotFound(EntityMissing(id))
    ensures r.Ok? ==> r.value == BaseService.Detail(users, UserId, id).value.(roles := [])
  {
    match BaseService.Detail(users, UserId, id)
    case Err(e) => Err(e)
    case Ok(u) => Ok(u.(roles := []))
  }

  /** The first role of a list with that id. */
  function FirstRole(roles: seq<Role>, roleId: nat): (r: Option<Role>)
    ensures r.Some? ==> r.value in roles && r.value.id == roleId
    ensures r.None? <==> forall x :: x in roles ==> x.id != roleId
  {
    if |roles| == 0 then None
    else if roles[0].id == roleId then Some(roles[0])
    else
      assert roles == [roles[0]] + roles[1..];
      FirstRole(roles[1..], roleId)
  }

  /** `removeUserRole`: the user must exist and hold the role; only that role goes. */
  function RoleRemoved(users: seq<User>, userId: nat, roleId: nat): (r: Result<User, Failure>)
    ensures BaseService.Detail(users, UserId, userId).Err? ==> r == Err(NotFound(EntityMissing(userId)))
    ensures BaseService.Detail(users, UserId, userId).Ok? ==>
      var u := BaseService.Detail(users, UserId, userId).value;
      && ((forall x :: x in u.roles ==> x.id != roleId) ==> r == Err(NotFound(RoleNotHeld(roleId))))
      && (r.Ok? ==> r.value == u.(roles := r.value.roles)
                    && exists held :: held in u.roles && held.id == roleId
                                      && forall x :: x in r.value.roles <==> x in u.roles && x != held)
    ensures var d := BaseService.Detail(users, UserId, userId);
      d.Ok? && (exists x :: x in d.value.roles && x.id == roleId) ==> r.Ok?
  {
    match BaseService.Detail(users, UserId, userId)
    case Err(e) => Err(e)
    case Ok(u) =>
      match FirstRole(u.roles, roleId)
      case None => Err(NotFound(RoleNotHeld(roleId)))
      case Some(held) => Ok(u.(roles := Filter(u.roles, (x: Role) => x != held)))
  }

  /** With a repeated role id the count differs, so the request is refused even when the role exists. */
  lemma AssignRolesRefusesRepeatedId(u: User, role: Role)
    ensures RolesAssigned([u], [role], u.id, [role.id, role.id]) == Err(NotFound(SomeRolesMissing))
  {
    assert |Requested([role], [role.id, role.id])| <= 1;
  }

  // ---------------------------------------------------------------- the service

  /** The user table, the id counter, and the role table the role methods read. */
  class UserStore {
    var users: seq<User>
    var nextId: nat
    var roleTable: seq<Role>

    /** Keys are unique; ids are positive and below the counter. */
    ghost predicate Valid()
      reads this
    {
      && UniqueKeys(users)
      && nextId > 0
      && forall u :: u in users ==> 0 < u.id < nextId
    }

    constructor(roleTable: seq<Role>)
      ensures Valid() && users == [] && nextId == 1 && this.roleTable == roleTable
    {
      users := [];
      nextId := 1;
      this.roleTable := roleTable;
    }

    /** Writes back a user whose id is in the table; the ids stay as they were. */
    method Save(u: User)
      requires Valid() && exists w :: w in users && w.id == u.id
      requires UniqueKeys(ReplaceUser(users, u))
      modifies this
      ensures Valid() && users == ReplaceUser(old(users), u)
      ensures nextId == old(nextId) && roleTable == old(roleTable)
    {
      users := ReplaceUser(users, u);
      forall x | x in users ensures 0 < x.id < nextId {
        var i :| 0 <= i < |users| && users[i] == x;
        assert old(users)[i] in old(users);
      }
    }

    /** `create`: the clash check, then the new pending account under a fresh id. */
    method Create(username: string, nickname: string, email: string, hashed: string,
                  avatar: Option<string>, phoneNumber: Option<string>) returns (r: Result<User, Failure>)
      requires Valid()
      modifies this
      ensures Valid() && roleTable == old(roleTable)
      ensures r == CreateUser(old(users), old(nextId), username, nickname, email, hashed, avatar, phoneNumber)
      ensures r.Ok? ==> users == old(users) + [r.value] && nextId == old(nextId) + 1
      ensures r.Err? ==> users == old(users) && nextId == old(nextId)
    {
      var conflict := CreateConflict(users, username, email, phoneNumber);
      if conflict.Some? {
        return Err(conflict.value);
      }
      var user := User(nextId, username, nickname, None, hashed, email, false, None, PendingVerification, 0, []);
      if Truthy(avatar) { user := user.(avatar := avatar); }
      if Truthy(phoneNumber) { user := user.(phoneNumber := phoneNumber); }
      CreateKeepsKeysUnique(users, nextId, username, nickname, email, hashed, avatar, phoneNumber);
      users := users + [user];
      nextId := nextId + 1;
      r := Ok(user);
    }

    /** `update`: each supplied key is checked for a clash before it is taken; then the profile fields. */
    method Update(id: nat, c: UserChanges) returns (r: Result<User, Failure>)
      requires Valid()
      modifies this
      ensures Valid() && nextId == old(nextId) && roleTable == old(roleTable)
      ensures r == UpdateUser(old(users), id, c)
      ensures users == if r.Ok? then ReplaceUser(old(users), r.value) else old(users)
    {
      var found := BaseService.Detail(users, UserId, id);
      if found.Err? {
        return Err(found.error);
      }
      var changed := Change(found.value, c);
      if changed.Err? {
        return changed;
      }
      var user := changed.value;
      UpdateKeepsKeysUnique(users, id, c);
      assert found.value in users && found.value.id == user.id;
      Save(user);
      r := Ok(user);
    }

    /** The key checks of `update`, each before its key is taken, then the profile fields. */
    method Change(u: User, c: UserChanges) returns (r: Result<User, Failure>)
      ensures r == Changed(users, u, c)
    {
      var step := CheckUsername(u, c.username);
      if step.Err? {
        return step;
      }
      step := CheckEmail(step.value, c.email);
      if step.Err? {
        return step;
      }
      step := CheckPhone(step.value, c.phoneNumber);
      if step.Err? {
        return step;
      }
      var user := step.value;
      if Truthy(c.nickname) { user := user.(nickname := c.nickname.value); }
      if Truthy(c.avatar) { user := user.(avatar := c.avatar); }
      if c.status.Some? { user := user.(status := c.status.value); }
      assert user == ChangeProfile(step.value, c);
      r := Ok(user);
    }

    /** The username step of `update`: a new username must not be held by anyone. */
    method CheckUsername(u: User, username: Option<string>) returns (r: Result<User, Failure>)
      ensures r == ChangeUsername(users, u, username)
    {
      r := Ok(u);
      if Truthy(username) && username.value != u.username {
        var holder := FirstUser(users, (w: User) => w.username == username.value);
        if holder.Some? {
          return Err(Conflict(UsernameTaken));
        }
        r := Ok(u.(username := username.value));
      }
    }

    /** The email step of `update`: a new email must be free and leaves the account unverified. */
    method CheckEmail(u: User, email: Option<string>) returns (r: Result<User, Failure>)
      ensures r == ChangeEmail(users, u, email)
    {
      r := Ok(u);
      if Truthy(email) && email.value != u.email {
        var holder := FirstUser(users, (w: User) => w.email == email.value);
        if holder.Some? {
          return Err(Conflict(EmailTaken));
        }
        r := Ok(u.(email := email.value, isEmailVerified := false));
      }
    }

    /** The phone step of `update`: a new phone number must be free. */
    method CheckPhone(u: User, phoneNumber: Option<string>) returns (r: Result<User, Failure>)
      ensures r == ChangePhone(users, u, phoneNumber)
    {
      r := Ok(u);
      if Truthy(phoneNumber) && phoneNumber != u.phoneNumber {
        var holder := FirstUser(users, (w: User) => w.phoneNumber == phoneNumber);
        if holder.Some? {
          return Err(Conflict(PhoneTaken));
        }
        r := Ok(u.(phoneNumber := phoneNumber));
      }
    }

    /** `changePassword`: the old password is verified, then the new hash is stored. */
    method ChangePassword(id: nat, oldPassword: string, newPassword: string, hashed: string, verify: (string, string) -> bool)
      returns (r: Result<(), Failure>)
      requires Valid()
      modifies this
      ensures Valid() && nextId == old(nextId) && roleTable == old(roleTable)
      ensures var c := PasswordChanged(old(users), id, oldPassword, newPassword, hashed, verify);
        && (c.Err? ==> r == Err(c.error) && users == old(users))
        && (c.Ok? ==> r == Ok(()) && users == ReplaceUser(old(users), c.value))
    {
      var found := BaseService.Detail(users, UserId, id);
      if found.Err? {
        return Err(found.error);
      }
      var user := found.value;
      if !verify(user.password, oldPassword) {
        return Err(BadRequest(WrongOldPassword));
      }
      if oldPassword == newPassword {
        return Err(BadRequest(SamePassword));
      }
      user := user.(password := hashed);
      ReplaceKeepsKeysUnique(users, found.value, user);
      Save(user);
      r := Ok(());
    }

    /** `assignRoles`: the requested roles replace the user's roles, when all of them are found. */
    method AssignRoles(id: nat, roleIds: seq<nat>) returns (r: Result<User, Failure>)
      requires Valid()
      modifies this
      ensures Valid() && nextId == old(nextId) && roleTable == old(roleTable)
      ensures r == RolesAssigned(old(users), roleTable, id, roleIds)
      ensures users == if r.Ok? then ReplaceUser(old(users), r.value) else old(users)
    {
      var found := BaseService.Detail(users, UserId, id);
      if found.Err? {
        return Err(found.error);
      }
      var user := found.value;
      var roles := Requested(roleTable, roleIds);
      if |roles| != |roleIds| {
        return Err(NotFound(SomeRolesMissing));
      }
      user := user.(roles := roles);
      ReplaceKeepsKeysUnique(users, found.value, user);
      Save(user);
      r := Ok(user);
    }

    /** `removeUserRoles`: the user's role collection is emptied. */
    method RemoveUserRoles(id: nat) returns (r: Result<(), Failure>)
      requires Valid()
      modifies this
      ensures Valid() && nextId == old(nextId) && roleTable == old(roleTable)
      ensures var c := RolesCleared(old(users), id);
        && (c.Err? ==> r == Err(c.error) && users == old(users))
        && (c.Ok? ==> r == Ok(()) && users == ReplaceUser(old(users), c.value))
    {
      var found := BaseService.Detail(users, UserId, id);
      if found.Err? {
        return Err(found.error);
      }
      var user := found.value.(roles := []);
      ReplaceKeepsKeysUnique(users, found.value, user);
      Save(user);
      r := Ok(());
    }

    /** `removeUserRole`: the held role with that id leaves the user's roles. */
    method RemoveUserRole(userId: nat, roleId: nat) returns (r: Result<(), Failure>)
      requires Valid()
      modifies this
      ensures Valid() && nextId == old(nextId) && roleTable == old(roleTable)
      ensures var c := RoleRemoved(old(users), userId, roleId);
        && (c.Err? ==> r == Err(c.error) && users == old(users))
        && (c.Ok? ==> r == Ok(()) && users == ReplaceUser(old(users), c.value))
    {
      var found := BaseService.Detail(users, UserId, userId);
      if found.Err? {
        return Err(found.error);
      }
      var held := FirstRole(found.value.roles, roleId);
      if held.None? {
        return Err(NotFound(RoleNotHeld(roleId)));
      }
      var user := found.value.(roles := Filter(found.value.roles, (x: Role) => x != held.value));
      ReplaceKeepsKeysUnique(users, found.value, user);
      Save(user);
      r := Ok(());
    }
  }
}
