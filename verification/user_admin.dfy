/** The server's guards around users (app.py): extraction of the bearer token
    (`token_required`), and the admin-only user endpoints with their
    role, self-change, self-delete and password-length rules. */
module UserAdmin {
  import opened Wrappers
  import Text
  import Seqs
  import ServerDb

  /** An HTTP status code with the JSON `message`/`error` text. */
  datatype Response = Response(code: int, text: string)

  // ---------------------------------------------------------------------
  // token_required

  /** The token of an `Authorization` header: present only when the header
      starts with `Bearer ` and the second space-separated piece is non-empty
      (`auth_header.split(" ")[1]`, then `if not token`). */
  function BearerToken(header: Option<string>): (r: Option<string>)
    ensures header.None? || !Text.StartsWith(header.value, "Bearer ") ==> r.None?
    ensures r.Some? ==> r.value != "" && ' ' !in r.value
  {
    match header
    case None => None
    case Some(h) =>
      if Text.StartsWith(h, "Bearer ") then
        assert h[6] == ' ';
        var pieces := Text.Split(h, ' ');
        if pieces[1] == "" then None else Some(pieces[1])
      else None
  }

  /** What `jwt.decode` makes of a token: its claims, or one of the two
      failures the decorator distinguishes. */
  datatype Claims = Decoded(userId: int, role: string) | ExpiredToken | InvalidToken

  /** The caller as the decorated endpoint sees it, or the 401 it never reaches. */
  datatype Auth = Authenticated(userId: int, role: string) | Unauthorized(response: Response)

  /** `token_required`; JWT verification is the parameter `decode`. */
  function TokenRequired(header: Option<string>, decode: string -> Claims): (r: Auth)
    ensures BearerToken(header).None? ==> r == Unauthorized(Response(401, "Token is missing!"))
    ensures BearerToken(header).Some? ==>
      match decode(BearerToken(header).value)
      case Decoded(id, role) => r == Authenticated(id, role)
      case ExpiredToken => r == Unauthorized(Response(401, "Token has expired!"))
      case InvalidToken => r == Unauthorized(Response(401, "Invalid token!"))
  {
    match BearerToken(header)
    case None => Unauthorized(Response(401, "Token is missing!"))
    case Some(token) =>
      match decode(token)
      case Decoded(id, role) => Authenticated(id, role)
      case ExpiredToken => Unauthorized(Response(401, "Token has expired!"))
      case InvalidToken => Unauthorized(Response(401, "Invalid token!"))
  }

  /** The header the browser builds for a stored token is read back as that
      very token, provided the token has no space in it (a JWT never does). */
  lemma BearerRoundTrip(token: string)
    requires token != "" && ' ' !in token
    ensures BearerToken(Some("Bearer " + token)) == Some(token)
  {
    var h := "Bearer " + token;
    assert h == "Bearer" + [' '] + token;
    Text.SplitAfterPiece("Bearer", token, ' ');
    Text.SplitNoSeparator(token, ' ');
    assert Text.StartsWith(h, "Bearer ") by {
      assert h[..7] == "Bearer ";
    }
  }

  /** A token with a space in it is cut at the space: only the part before it
      reaches the JWT check. */
  lemma BearerCutsAtSpace(first: string, rest: string)
    requires first != "" && ' ' !in first
    ensures BearerToken(Some("Bearer " + first + " " + rest)) == Some(first)
  {
    var h := "Bearer " + first + " " + rest;
    assert h == "Bearer" + [' '] + (first + [' '] + rest);
    Text.SplitAfterPiece("Bearer", first + [' '] + rest, ' ');
    Text.SplitAfterPiece(first, rest, ' ');
    assert Text.StartsWith(h, "Bearer ") by {
      assert h[..7] == "Bearer ";
    }
  }

  // ---------------------------------------------------------------------
  // the user endpoints

  /** A comment's author and idea (the `comments` table). */
  datatype Comment = Comment(ideaId: int, userId: int)

  /** A row of `idea_reactions`, reduced to its two foreign keys. */
  datatype Vote = Vote(ideaId: int, userId: int)

  /** The tables the user endpoints touch. `passwords` holds what
      `generate_password_hash` produced; the hash itself is abstracted to
      the password. `ideaOwners` maps an idea to its `user_id`. */
  datatype UserDb = UserDb(
    roles: map<int, string>,
    passwords: map<int, string>,
    ideaOwners: map<int, int>,
    comments: seq<Comment>,
    notifications: seq<ServerDb.Notification>,
    votes: seq<Vote>)

  /** The foreign keys of the schema (app.py, `init_db`), which the database
      enforces on every statement: roles and passwords are two columns of
      the same `users` row, every idea has an existing owner, and every
      comment, notification and reaction names an existing idea and an
      existing user. */
  predicate Valid(db: UserDb)
  {
    && db.passwords.Keys == db.roles.Keys
    && (forall i :: i in db.ideaOwners ==> db.ideaOwners[i] in db.roles)
    && (forall k :: 0 <= k < |db.comments| ==>
          db.comments[k].ideaId in db.ideaOwners && db.comments[k].userId in db.roles)
    && (forall k :: 0 <= k < |db.notifications| ==>
          db.notifications[k].ideaId in db.ideaOwners && db.notifications[k].userId in db.roles)
    && (forall k :: 0 <= k < |db.votes| ==>
          db.votes[k].ideaId in db.ideaOwners && db.votes[k].userId in db.roles)
  }

  /** `g.current_user_role != 'admin' and ... != 'superadmin'` is false. */
  predicate IsAdminRole(role: string)
  {
    role == "admin" || role == "superadmin"
  }

  const Forbidden := Response(403, "Unauthorized access")

  /** What Flask answers when a database error escapes a view. */
  const ServerFailure := Response(500, "Internal Server Error")

  /** `valid_roles`: note that 'superadmin' cannot be assigned. */
  const AssignableRoles: seq<string> := ["user", "admin", "ceo", "hr"]

  const InvalidRole := Response(400, "Invalid role. Must be one of: user, admin, ceo, hr")

  /** `GET /api/users`: admins only. */
  function ListUsersAllowed(callerRole: string): (r: Option<Response>)
    ensures r.None? <==> IsAdminRole(callerRole)
    ensures r.Some? ==> r.value == Forbidden
  {
    if IsAdminRole(callerRole) then None else Some(Forbidden)
  }

  /** `PUT /api/users/{target}/role`. The checks run in the order: admin,
      valid role, not oneself; then the UPDATE. Its `rowcount` counts the rows
      whose value changed, so giving a user the role they already hold is
      answered with the same 404 as a missing user. */
  function UpdateRole(db: UserDb, callerId: int, callerRole: string, target: int,
                      newRole: Option<string>): (res: (UserDb, Response))
    ensures !IsAdminRole(callerRole) ==> res == (db, Forbidden)
    ensures IsAdminRole(callerRole) && (newRole.None? || newRole.value !in AssignableRoles) ==>
      res == (db, InvalidRole)
    ensures IsAdminRole(callerRole) && newRole.Some? && newRole.value in AssignableRoles && target == callerId ==>
      res == (db, Response(400, "Cannot change your own role"))
    ensures res.1.code == 200 <==>
      IsAdminRole(callerRole) && newRole.Some? && newRole.value in AssignableRoles
      && target != callerId && target in db.roles && db.roles[target] != newRole.value
    ensures res.1.code == 200 ==>
      res == (db.(roles := db.roles[target := newRole.value]),
              Response(200, "User role updated to " + newRole.value))
    ensures IsAdminRole(callerRole) && newRole.Some? && newRole.value in AssignableRoles && target != callerId ==>
      res.1.code != 200 ==> res.1 == Response(404, "User not found")
    ensures res.0.roles == (if target in db.roles && newRole.Some? && res.1.code == 200
                            then db.roles[target := newRole.value] else db.roles)
    ensures res.1.code != 200 ==> res.0 == db
  {
    if !IsAdminRole(callerRole) then (db, Forbidden)
    else if newRole.None? || newRole.value !in AssignableRoles then (db, InvalidRole)
    else if target == callerId then (db, Response(400, "Cannot change your own role"))
    else if target in db.roles && db.roles[target] != newRole.value then
      (db.(roles := db.roles[target := newRole.value]), Response(200, "User role updated to " + newRole.value))
    else (db, Response(404, "User not found"))
  }

  /** Nobody can make anyone a superadmin, no admin can touch their own role,
      and no user appears or disappears: the foreign keys keep holding. */
  lemma RoleChangesAreBounded(db: UserDb, callerId: int, callerRole: string, target: int,
                              newRole: Option<string>, u: int)
    requires u in db.roles
    ensures var (db', _) := UpdateRole(db, callerId, callerRole, target, newRole);
      && u in db'.roles
      && (db'.roles[u] != db.roles[u] ==> u != callerId && db'.roles[u] != "superadmin")
      && (Valid(db) ==> Valid(db'))
  {
  }

  /** Repeating a role change that succeeded is answered 404 "User not
      found", although the user exists and holds the requested role. */
  lemma RepeatedRoleChangeIsNotFound(db: UserDb, callerId: int, callerRole: string, target: int,
                                     newRole: Option<string>)
    ensures var (db1, r1) := UpdateRole(db, callerId, callerRole, target, newRole);
      r1.code == 200 ==>
        var (db2, r2) := UpdateRole(db1, callerId, callerRole, target, newRole);
        && target in db2.roles && db2.roles[target] == newRole.value
        && r2 == Response(404, "User not found")
  {
  }

  // ---------------------------------------------------------------------
  // deleting a user

  predicate OwnedBy(db: UserDb, user: int, idea: int)
  {
    idea in db.ideaOwners && db.ideaOwners[idea] == user
  }

  /** The rows that make `delete_user` fail: the endpoint deletes the user's
      notifications and comments, then the user's ideas, then the user; a
      notification or comment by someone else on one of those ideas, or any
      reaction to one of them, makes the database refuse the idea DELETE,
      and a reaction by the user makes it refuse the user DELETE. */
  predicate DeleteBlocked(db: UserDb, target: int)
  {
    || (exists k :: 0 <= k < |db.notifications| &&
          db.notifications[k].userId != target && OwnedBy(db, target, db.notifications[k].ideaId))
    || (exists k :: 0 <= k < |db.comments| &&
          db.comments[k].userId != target && OwnedBy(db, target, db.comments[k].ideaId))
    || (exists k :: 0 <= k < |db.votes| &&
          (OwnedBy(db, target, db.votes[k].ideaId) || db.votes[k].userId == target))
  }

  /** The four DELETE statements of `delete_user`, when none is refused: the
      user, the user's ideas, and the user's notifications and comments go;
      the rest stays as it was. */
  function RemoveUser(db: UserDb, target: int): (out: UserDb)
    ensures out.roles == db.roles - {target}
    ensures out.passwords == db.passwords - {target}
    ensures forall i :: i in out.ideaOwners <==> i in db.ideaOwners && db.ideaOwners[i] != target
    ensures forall i :: i in out.ideaOwners ==> out.ideaOwners[i] == db.ideaOwners[i]
    ensures forall k :: 0 <= k < |out.notifications| ==>
      out.notifications[k] in db.notifications && out.notifications[k].userId != target
    ensures forall k :: 0 <= k < |db.notifications| && db.notifications[k].userId != target ==>
      db.notifications[k] in out.notifications
    ensures forall k :: 0 <= k < |out.comments| ==>
      out.comments[k] in db.comments && out.comments[k].userId != target
    ensures forall k :: 0 <= k < |db.comments| && db.comments[k].userId != target ==>
      db.comments[k] in out.comments
    ensures out.votes == db.votes
  {
    UserDb(
      db.roles - {target},
      db.passwords - {target},
      map i | i in db.ideaOwners && db.ideaOwners[i] != target :: db.ideaOwners[i],
      Seqs.Filter(db.comments, (c: Comment) => c.userId != target),
      Seqs.Filter(db.notifications, (n: ServerDb.Notification) => n.userId != target),
      db.votes)
  }

  /** `DELETE /api/users/{target}`: admin only, never oneself. When one of
      the DELETEs is refused the exception escapes the view: the answer is
      500 and, the transaction never being committed, nothing changes. */
  function DeleteUser(db: UserDb, callerId: int, callerRole: string, target: int): (res: (UserDb, Response))
    ensures !IsAdminRole(callerRole) ==> res == (db, Forbidden)
    ensures IsAdminRole(callerRole) && target == callerId ==>
      res == (db, Response(400, "Cannot delete your own account"))
    ensures IsAdminRole(callerRole) && target != callerId && DeleteBlocked(db, target) ==>
      res == (db, ServerFailure)
    ensures IsAdminRole(callerRole) && target != callerId && !DeleteBlocked(db, target) ==>
      && res.0 == RemoveUser(db, target)
      && res.1 == (if target in db.roles then Response(200, "User deleted successfully")
                   else Response(404, "User not found"))
  {
    if !IsAdminRole(callerRole) then (db, Forbidden)
    else if target == callerId then (db, Response(400, "Cannot delete your own account"))
    else if DeleteBlocked(db, target) then (db, ServerFailure)
    else
      (RemoveUser(db, target), if target in db.roles then Response(200, "User deleted successfully")
                               else Response(404, "User not found"))
  }

  /** Whatever `delete_user` answers, the foreign keys still hold after it. */
  lemma DeleteKeepsIntegrity(db: UserDb, callerId: int, callerRole: string, target: int)
    requires Valid(db)
    ensures Valid(DeleteUser(db, callerId, callerRole, target).0)
  {
    if IsAdminRole(callerRole) && target != callerId && !DeleteBlocked(db, target) {
      RemoveKeepsIntegrity(db, target);
    }
  }

  lemma RemoveKeepsIntegrity(db: UserDb, target: int)
    requires Valid(db) && !DeleteBlocked(db, target)
    ensures Valid(RemoveUser(db, target))
  {
    var out := RemoveUser(db, target);
    forall k | 0 <= k < |out.comments|
      ensures out.comments[k].ideaId in out.ideaOwners && out.comments[k].userId in out.roles
    {
      var j :| 0 <= j < |db.comments| && db.comments[j] == out.comments[k];
      assert !OwnedBy(db, target, db.comments[j].ideaId);
    }
    forall k | 0 <= k < |out.notifications|
      ensures out.notifications[k].ideaId in out.ideaOwners && out.notifications[k].userId in out.roles
    {
      var j :| 0 <= j < |db.notifications| && db.notifications[j] == out.notifications[k];
      assert !OwnedBy(db, target, db.notifications[j].ideaId);
    }
    forall k | 0 <= k < |out.votes|
      ensures out.votes[k].ideaId in out.ideaOwners && out.votes[k].userId in out.roles
    {
      assert !OwnedBy(db, target, db.votes[k].ideaId);
    }
  }

  /** A user who has reacted to any idea can never be deleted: the request
      fails with 500 however often it is repeated. */
  lemma ReactedUserCannotBeDeleted(db: UserDb, callerId: int, callerRole: string, target: int, idea: int)
    requires IsAdminRole(callerRole) && target != callerId
    requires Vote(idea, target) in db.votes
    ensures DeleteUser(db, callerId, callerRole, target) == (db, ServerFailure)
  {
    var k :| 0 <= k < |db.votes| && db.votes[k] == Vote(idea, target);
    assert DeleteBlocked(db, target);
  }

  /** The rows that block deleting `target`, removed: everything by someone
      else on the user's ideas, and every reaction to them or by the user. */
  function Detach(db: UserDb, target: int): (out: UserDb)
    ensures out.roles == db.roles && out.passwords == db.passwords && out.ideaOwners == db.ideaOwners
    ensures !DeleteBlocked(out, target)
    ensures Valid(db) ==> Valid(out)
    ensures forall k :: 0 <= k < |db.notifications| ==>
      (db.notifications[k].userId == target || !OwnedBy(db, target, db.notifications[k].ideaId)
       ==> db.notifications[k] in out.notifications)
    ensures forall k :: 0 <= k < |db.comments| ==>
      (db.comments[k].userId == target || !OwnedBy(db, target, db.comments[k].ideaId)
       ==> db.comments[k] in out.comments)
    ensures forall k :: 0 <= k < |db.votes| ==>
      (!OwnedBy(db, target, db.votes[k].ideaId) && db.votes[k].userId != target ==> db.votes[k] in out.votes)
  {
    var ns := Seqs.Filter(db.notifications, (n: ServerDb.Notification) =>
                n.userId == target || !OwnedBy(db, target, n.ideaId));
    var cs := Seqs.Filter(db.comments, (c: Comment) => c.userId == target || !OwnedBy(db, target, c.ideaId));
    var vs := Seqs.Filter(db.votes, (v: Vote) => !OwnedBy(db, target, v.ideaId) && v.userId != target);
    var out := db.(notifications := ns, comments := cs, votes := vs);
    DetachUnblocks(db, target, out);
    DetachKeepsIntegrity(db, out);
    out
  }

  lemma DetachUnblocks(db: UserDb, target: int, out: UserDb)
    requires out.ideaOwners == db.ideaOwners
    requires forall k :: 0 <= k < |out.notifications| ==>
      out.notifications[k].userId == target || !OwnedBy(db, target, out.notifications[k].ideaId)
    requires forall k :: 0 <= k < |out.comments| ==>
      out.comments[k].userId == target || !OwnedBy(db, target, out.comments[k].ideaId)
    requires forall k :: 0 <= k < |out.votes| ==>
      !OwnedBy(db, target, out.votes[k].ideaId) && out.votes[k].userId != target
    ensures !DeleteBlocked(out, target)
  {
  }

  lemma DetachKeepsIntegrity(db: UserDb, out: UserDb)
    requires out.roles == db.roles && out.passwords == db.passwords && out.ideaOwners == db.ideaOwners
    requires forall k :: 0 <= k < |out.notifications| ==> out.notifications[k] in db.notifications
    requires forall k :: 0 <= k < |out.comments| ==> out.comments[k] in db.comments
    requires forall k :: 0 <= k < |out.votes| ==> out.votes[k] in db.votes
    ensures Valid(db) ==> Valid(out)
  {
  }

  /** Nothing blocks the delete exactly when there is nothing to detach. */
  lemma DetachIdleWhenUnblocked(db: UserDb, target: int)
    ensures !DeleteBlocked(db, target) <==> Detach(db, target) == db
  {
    if !DeleteBlocked(db, target) {
      Seqs.FilterAll(db.notifications, (n: ServerDb.Notification) =>
        n.userId == target || !OwnedBy(db, target, n.ideaId));
      Seqs.FilterAll(db.comments, (c: Comment) => c.userId == target || !OwnedBy(db, target, c.ideaId));
      Seqs.FilterAll(db.votes, (v: Vote) => !OwnedBy(db, target, v.ideaId) && v.userId != target);
    }
  }

  /** `delete_user` as its own comment intends it ("delete their ideas too
      to maintain integrity"): the rows that refer to the user or to the
      user's ideas go first, so the request never fails. */
  function DeleteUserCascade(db: UserDb, callerId: int, callerRole: string, target: int): (res: (UserDb, Response))
    requires Valid(db)
    ensures Valid(res.0)
    ensures res.1.code == 200 <==> IsAdminRole(callerRole) && target != callerId && target in db.roles
    ensures res.1.code != 500
    ensures res.1.code == 200 ==>
      target !in res.0.roles && res.0.roles == db.roles - {target}
      && forall i :: i in db.ideaOwners && db.ideaOwners[i] != target ==> i in res.0.ideaOwners
  {
    if !IsAdminRole(callerRole) then (db, Forbidden)
    else if target == callerId then (db, Response(400, "Cannot delete your own account"))
    else
      var detached := Detach(db, target);
      RemoveKeepsIntegrity(detached, target);
      (RemoveUser(detached, target), if target in db.roles then Response(200, "User deleted successfully")
                                     else Response(404, "User not found"))
  }

  /** The corrected delete does exactly what the written one does whenever
      the written one succeeds. */
  lemma CascadeAgreesWhenUnblocked(db: UserDb, callerId: int, callerRole: string, target: int)
    requires Valid(db) && !DeleteBlocked(db, target)
    ensures DeleteUserCascade(db, callerId, callerRole, target) == DeleteUser(db, callerId, callerRole, target)
  {
    DetachIdleWhenUnblocked(db, target);
  }

  /** The case the written delete gets wrong: user 2 owns idea 10, and admin
      1 has liked it. */
  lemma DeleteOfReactedIdeaOwnerFails()
    ensures var db := UserDb(map[1 := "admin", 2 := "user"], map[1 := "a", 2 := "b"], map[10 := 2],
                             [], [], [Vote(10, 1)]);
      && Valid(db)
      && DeleteUser(db, 1, "admin", 2) == (db, ServerFailure)
      && DeleteUserCascade(db, 1, "admin", 2).1 == Response(200, "User deleted successfully")
  {
    var db := UserDb(map[1 := "admin", 2 := "user"], map[1 := "a", 2 := "b"], map[10 := 2],
                     [], [], [Vote(10, 1)]);
    assert OwnedBy(db, 2, db.votes[0].ideaId);
  }

  // ---------------------------------------------------------------------
  // resetting a password

  /** `PUT /api/users/{target}/password`: admin only; a missing, empty or
      shorter-than-5 password is refused. Resetting one's own password is
      allowed. */
  function ResetPassword(db: UserDb, callerRole: string, target: int,
                         newPassword: Option<string>): (res: (UserDb, Response))
    ensures !IsAdminRole(callerRole) ==> res == (db, Forbidden)
    ensures IsAdminRole(callerRole) && (newPassword.None? || |newPassword.value| < 5) ==>
      res == (db, Response(400, "Password must be at least 5 characters long"))
    ensures res.1.code == 200 <==>
      IsAdminRole(callerRole) && newPassword.Some? && |newPassword.value| >= 5 && target in db.passwords
    ensures res.1.code == 200 ==> res.0 == db.(passwords := db.passwords[target := newPassword.value])
    ensures res.1.code != 200 ==> res.0 == db
  {
    if !IsAdminRole(callerRole) then (db, Forbidden)
    else if newPassword.None? || |newPassword.value| < 5 then
      (db, Response(400, "Password must be at least 5 characters long"))
    else if target in db.passwords then
      (db.(passwords := db.passwords[target := newPassword.value]),
       Response(200, "Password updated successfully"))
    else (db, Response(404, "User not found"))
  }

  /** A reset touches one password and nothing else: roles and every other
      user's password stay, the target afterwards holds exactly the new
      password, and on a consistent database the request succeeds for every
      existing user. */
  lemma ResetTouchesOnePassword(db: UserDb, callerRole: string, target: int,
                                newPassword: Option<string>, u: int)
    requires Valid(db)
    ensures var (db', r) := ResetPassword(db, callerRole, target, newPassword);
      && Valid(db')
      && db'.roles == db.roles
      && (u != target && u in db.passwords ==> u in db'.passwords && db'.passwords[u] == db.passwords[u])
      && (r.code == 200 <==>
            IsAdminRole(callerRole) && newPassword.Some? && |newPassword.value| >= 5 && target in db.roles)
      && (r.code == 200 ==> db'.passwords[target] == newPassword.value)
  {
    assert target in db.passwords <==> target in db.roles;
  }
}
