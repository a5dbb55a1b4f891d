/**
 * The permission check: a user holds a permission code when one of its roles
 * grants it, and a request is allowed when every required code is held.
 */
module Rbac {
  import opened Wrappers
  import opened Users

  /** `roles.flatMap(role => role.permissions).map(p => p.code)`: every code, role by role. */
  function Codes(roles: seq<Role>): (codes: seq<string>)
    ensures forall c :: c in codes <==> exists r :: r in roles && c in r.codes
  {
    if |roles| == 0 then []
    else
      var rest := Codes(roles[1..]);
      assert forall r :: r in roles <==> r == roles[0] || r in roles[1..] by {
        assert roles == [roles[0]] + roles[1..];
      }
      roles[0].codes + rest
  }

  /** A role grants a code. */
  predicate Grants(roles: seq<Role>, code: string)
  {
    exists r :: r in roles && code in r.codes
  }

  /**
   * `checkPermissions`: false for an unknown user; otherwise whether every
   * required code is among the codes of the user's roles.
   */
  function CheckPermissions(users: seq<User>, userId: nat, required: seq<string>): (ok: bool)
    ensures FirstUser(users, (w: User) => w.id == userId).None? ==> !ok
    ensures FirstUser(users, (w: User) => w.id == userId).Some? ==>
      (ok <==> forall p :: p in required ==> Grants(FirstUser(users, (w: User) => w.id == userId).value.roles, p))
  {
    match FirstUser(users, (w: User) => w.id == userId)
    case None => false
    case Some(u) =>
      var held := Codes(u.roles);
      forall p :: p in required ==> p in held
  }

  /** Checking a user is checking its roles. */
  function Allowed(roles: seq<Role>, required: seq<string>): bool
  {
    forall p :: p in required ==> Grants(roles, p)
  }

  /** No user, no permission, whatever is asked. */
  lemma UnknownUserHasNoPermission(users: seq<User>, userId: nat, required: seq<string>)
    requires forall u :: u in users ==> u.id != userId
    ensures !CheckPermissions(users, userId, required)
  {
  }

  /** Asking for nothing is allowed exactly for users that exist. */
  lemma NothingRequired(users: seq<User>, userId: nat)
    ensures CheckPermissions(users, userId, []) <==> exists u :: u in users && u.id == userId
  {
    if exists u :: u in users && u.id == userId {
      assert FirstUser(users, (w: User) => w.id == userId).Some?;
    }
  }

  /** Only the set of required codes matters: not their order, not repetitions. */
  lemma OnlyTheRequiredSetMatters(users: seq<User>, userId: nat, a: seq<string>, b: seq<string>)
    requires forall p :: p in a <==> p in b
    ensures CheckPermissions(users, userId, a) == CheckPermissions(users, userId, b)
  {
  }

  /**
   * Requiring fewer codes, or holding roles that grant more, never withdraws a
   * permission: this covers more roles, a role that gains a code, and any
   * reordering of roles or of their permissions.
   */
  lemma Monotone(roles: seq<Role>, more: seq<Role>, required: seq<string>, fewer: seq<string>)
    requires Allowed(roles, required)
    requires forall c :: Grants(roles, c) ==> Grants(more, c)
    requires forall p :: p in fewer ==> p in required
    ensures Allowed(more, fewer)
  {
    forall p | p in fewer ensures Grants(more, p) {
      assert Grants(roles, p);
    }
  }

  /** In particular, a user given more roles keeps every permission it had. */
  lemma MoreRolesKeepPermissions(roles: seq<Role>, more: seq<Role>, required: seq<string>)
    requires Allowed(roles, required)
    requires forall r :: r in roles ==> r in more
    ensures Allowed(more, required)
  {
    forall c | Grants(roles, c) ensures Grants(more, c) {
      var r :| r in roles && c in r.codes;
      assert r in more;
    }
    Monotone(roles, more, required, required);
  }

  /** A user is allowed exactly when its roles allow the request. */
  lemma CheckIsAllowed(users: seq<User>, u: User, required: seq<string>)
    requires u in users && forall w :: w in users && w.id == u.id ==> w == u
    ensures CheckPermissions(users, u.id, required) == Allowed(u.roles, required)
  {
  }
}
