/** The server side of a like/dislike (`react_to_idea` in app.py): the
    `idea_reactions` table with one row per (idea, user), the toggle-off /
    replace / insert step, the recount of likes, dislikes and points, and the
    rule that turns a CEO's vote into a status change. */
module ReactionTable {
  import opened Wrappers
  import opened Ideas
  import Reactions
  import ServerDb

  /** A row of `idea_reactions`. */
  datatype Row = Row(ideaId: int, userId: int, kind: Reaction)

  predicate Matches(row: Row, idea: int, user: int)
  {
    row.ideaId == idea && row.userId == user
  }

  /** `UNIQUE KEY unique_reaction (idea_id, user_id)`. */
  predicate OnePerPair(t: seq<Row>)
  {
    forall i, j :: 0 <= i < j < |t| ==> !(t[i].ideaId == t[j].ideaId && t[i].userId == t[j].userId)
  }

  /** `SELECT reaction_type ... WHERE idea_id = %s AND user_id = %s`, first row. */
  function Lookup(t: seq<Row>, idea: int, user: int): (r: Option<Reaction>)
    ensures r.None? <==> forall j :: 0 <= j < |t| ==> !Matches(t[j], idea, user)
    ensures r.Some? ==> exists j :: 0 <= j < |t| && Matches(t[j], idea, user) && t[j].kind == r.value
  {
    if |t| == 0 then None
    else if Matches(t[0], idea, user) then Some(t[0].kind)
    else Lookup(t[1..], idea, user)
  }

  /** Under the unique key, any matching row is the one the lookup finds. */
  lemma {:induction false} LookupFinds(t: seq<Row>, j: int, idea: int, user: int)
    requires OnePerPair(t)
    requires 0 <= j < |t| && Matches(t[j], idea, user)
    ensures Lookup(t, idea, user) == Some(t[j].kind)
  {
    if j > 0 {
      assert !Matches(t[0], idea, user);
      LookupFinds(t[1..], j - 1, idea, user);
    }
  }

  /** `DELETE FROM idea_reactions WHERE idea_id = %s AND user_id = %s`. */
  function Remove(t: seq<Row>, idea: int, user: int): (r: seq<Row>)
    ensures forall k :: 0 <= k < |r| ==> r[k] in t && !Matches(r[k], idea, user)
    ensures forall k :: 0 <= k < |t| && !Matches(t[k], idea, user) ==> t[k] in r
  {
    if |t| == 0 then []
    else (if Matches(t[0], idea, user) then [] else [t[0]]) + Remove(t[1..], idea, user)
  }

  /** `UPDATE idea_reactions SET reaction_type = %s WHERE idea_id = %s AND user_id = %s`. */
  function SetKind(t: seq<Row>, idea: int, user: int, kind: Reaction): (r: seq<Row>)
    ensures |r| == |t|
    ensures forall k :: 0 <= k < |t| ==>
      r[k] == (if Matches(t[k], idea, user) then t[k].(kind := kind) else t[k])
  {
    if |t| == 0 then []
    else [if Matches(t[0], idea, user) then t[0].(kind := kind) else t[0]]
         + SetKind(t[1..], idea, user, kind)
  }

  /** What the request did to the table: the `message` of the reply. */
  datatype Change = Added | Updated | Removed

  function ChangeMessage(c: Change): string
  {
    match c
    case Added => "Reaction added"
    case Updated => "Reaction updated"
    case Removed => "Reaction removed"
  }

  /** The table step: an equal reaction is deleted, a different one replaced,
      a missing one inserted. The unique key survives, the user's slot ends up
      holding the request (or nothing after a toggle-off), and nobody else's
      reaction moves. */
  function ApplyReaction(t: seq<Row>, idea: int, user: int, kind: Reaction): (res: (seq<Row>, Change))
    requires OnePerPair(t)
    ensures OnePerPair(res.0)
    ensures res.1 == Removed <==> Lookup(t, idea, user) == Some(kind)
    ensures res.1 == Added <==> Lookup(t, idea, user) == None
    ensures Lookup(res.0, idea, user) == (if res.1 == Removed then None else Some(kind))
    ensures forall i, u :: !(i == idea && u == user) ==> Lookup(res.0, i, u) == Lookup(t, i, u)
  {
    match Lookup(t, idea, user)
    case Some(existing) =>
      if existing == kind then
        var r := Remove(t, idea, user);
        RemoveUnique(t, idea, user);
        assert forall i, u :: Lookup(r, i, u) == (if i == idea && u == user then None else Lookup(t, i, u)) by {
          forall i, u ensures Lookup(r, i, u) == (if i == idea && u == user then None else Lookup(t, i, u)) {
            RemoveLookup(t, idea, user, i, u);
          }
        }
        (r, Removed)
      else
        var r := SetKind(t, idea, user, kind);
        assert forall i, u :: Lookup(r, i, u) == (if i == idea && u == user then Some(kind) else Lookup(t, i, u)) by {
          forall i, u ensures Lookup(r, i, u) == (if i == idea && u == user then Some(kind) else Lookup(t, i, u)) {
            SetKindLookup(t, idea, user, kind, i, u);
          }
        }
        (r, Updated)
    case None =>
      var row := Row(idea, user, kind);
      var r := t + [row];
      AppendUnique(t, row);
      assert forall i, u :: Lookup(r, i, u) == (if i == idea && u == user then Some(kind) else Lookup(t, i, u)) by {
        forall i, u ensures Lookup(r, i, u) == (if i == idea && u == user then Some(kind) else Lookup(t, i, u)) {
          AppendLookup(t, row, i, u);
        }
      }
      (r, Added)
  }

  lemma {:induction false} RemoveLookup(t: seq<Row>, idea: int, user: int, i: int, u: int)
    ensures Lookup(Remove(t, idea, user), i, u) == (if i == idea && u == user then None else Lookup(t, i, u))
  {
    if |t| > 0 {
      RemoveLookup(t[1..], idea, user, i, u);
      var rest := Remove(t[1..], idea, user);
      if !Matches(t[0], idea, user) {
        assert ([t[0]] + rest)[1..] == rest;
      } else {
        assert Remove(t, idea, user) == rest;
      }
    }
  }

  lemma {:induction false} RemoveUnique(t: seq<Row>, idea: int, user: int)
    requires OnePerPair(t)
    ensures OnePerPair(Remove(t, idea, user))
  {
    if |t| > 0 {
      var rest := Remove(t[1..], idea, user);
      RemoveUnique(t[1..], idea, user);
      if !Matches(t[0], idea, user) {
        var r := [t[0]] + rest;
        assert r[1..] == rest;
        forall i, j | 0 <= i < j < |r|
          ensures !(r[i].ideaId == r[j].ideaId && r[i].userId == r[j].userId)
        {
          if i == 0 {
            var k :| 0 <= k < |t[1..]| && t[1..][k] == r[j];
            assert t[k + 1] == r[j];
          } else {
            assert r[i] == rest[i - 1] && r[j] == rest[j - 1];
          }
        }
      } else {
        assert Remove(t, idea, user) == rest;
      }
    }
  }

  lemma {:induction false} SetKindLookup(t: seq<Row>, idea: int, user: int, kind: Reaction, i: int, u: int)
    requires Lookup(t, idea, user).Some?
    ensures Lookup(SetKind(t, idea, user, kind), i, u)
         == (if i == idea && u == user then Some(kind) else Lookup(t, i, u))
  {
    var r := SetKind(t, idea, user, kind);
    assert r[1..] == SetKind(t[1..], idea, user, kind);
    if !Matches(t[0], idea, user) {
      SetKindLookup(t[1..], idea, user, kind, i, u);
    } else if !(i == idea && u == user) {
      SetKindLookupOther(t[1..], idea, user, kind, i, u);
    }
  }

  lemma {:induction false} SetKindLookupOther(t: seq<Row>, idea: int, user: int, kind: Reaction, i: int, u: int)
    requires !(i == idea && u == user)
    ensures Lookup(SetKind(t, idea, user, kind), i, u) == Lookup(t, i, u)
  {
    if |t| > 0 {
      var r := SetKind(t, idea, user, kind);
      assert r[1..] == SetKind(t[1..], idea, user, kind);
      SetKindLookupOther(t[1..], idea, user, kind, i, u);
    }
  }

  lemma {:induction false} AppendLookup(t: seq<Row>, row: Row, i: int, u: int)
    requires Lookup(t, row.ideaId, row.userId) == None
    ensures Lookup(t + [row], i, u)
         == (if i == row.ideaId && u == row.userId then Some(row.kind) else Lookup(t, i, u))
  {
    if |t| == 0 {
      assert t + [row] == [row];
    } else {
      assert (t + [row])[1..] == t[1..] + [row];
      if !Matches(t[0], i, u) {
        AppendLookup(t[1..], row, i, u);
      }
    }
  }

  lemma AppendUnique(t: seq<Row>, row: Row)
    requires OnePerPair(t) && Lookup(t, row.ideaId, row.userId) == None
    ensures OnePerPair(t + [row])
  {
    var r := t + [row];
    forall i, j | 0 <= i < j < |r|
      ensures !(r[i].ideaId == r[j].ideaId && r[i].userId == r[j].userId)
    {
      if j == |t| {
        assert !Matches(t[i], row.ideaId, row.userId);
      }
    }
  }

  /** Sum of `f` over the rows of one idea: `COUNT(*)` and `SUM(CASE ...)`
      restricted to `idea_id = idea`. */
  function Tally(t: seq<Row>, idea: int, f: Row -> int): int
  {
    if |t| == 0 then 0
    else (if t[0].ideaId == idea then f(t[0]) else 0) + Tally(t[1..], idea, f)
  }

  /** What the user's own row contributes to a tally. */
  function SlotValue(slot: Option<Reaction>, idea: int, user: int, f: Row -> int): int
  {
    match slot
    case None => 0
    case Some(k) => f(Row(idea, user, k))
  }

  /** The request moves every tally of the idea by exactly the change in the
      user's own row: the old row's contribution leaves, the new one's enters. */
  lemma ApplyReactionTally(t: seq<Row>, idea: int, user: int, kind: Reaction, f: Row -> int, other: int)
    requires OnePerPair(t)
    ensures var t' := ApplyReaction(t, idea, user, kind).0;
      Tally(t', idea, f)
        == Tally(t, idea, f) - SlotValue(Lookup(t, idea, user), idea, user, f)
           + SlotValue(Lookup(t', idea, user), idea, user, f)
    ensures other != idea ==> Tally(ApplyReaction(t, idea, user, kind).0, other, f) == Tally(t, other, f)
  {
    match Lookup(t, idea, user)
    case Some(existing) =>
      if existing == kind {
        TallyRemove(t, idea, user, f, idea);
        TallyRemove(t, idea, user, f, other);
      } else {
        TallySetKind(t, idea, user, kind, f, idea);
        TallySetKind(t, idea, user, kind, f, other);
      }
    case None =>
      TallyAppend(t, Row(idea, user, kind), f, idea);
      TallyAppend(t, Row(idea, user, kind), f, other);
  }

  lemma {:induction false} TallyRemove(t: seq<Row>, idea: int, user: int, f: Row -> int, at: int)
    requires OnePerPair(t)
    ensures Tally(Remove(t, idea, user), at, f)
         == Tally(t, at, f) - (if at == idea then SlotValue(Lookup(t, idea, user), idea, user, f) else 0)
  {
    if |t| > 0 {
      TallyRemove(t[1..], idea, user, f, at);
      assert OnePerPair(t[1..]);
      var rest := Remove(t[1..], idea, user);
      if !Matches(t[0], idea, user) {
        assert ([t[0]] + rest)[1..] == rest;
      } else {
        assert Remove(t, idea, user) == rest;
        assert Lookup(t[1..], idea, user) == None by {
          forall j | 0 <= j < |t[1..]| ensures !Matches(t[1..][j], idea, user) {
            assert t[1..][j] == t[j + 1];
          }
        }
        assert t[0] == Row(idea, user, t[0].kind);
      }
    }
  }

  lemma {:induction false} TallySetKind(t: seq<Row>, idea: int, user: int, kind: Reaction, f: Row -> int, at: int)
    requires OnePerPair(t)
    ensures Tally(SetKind(t, idea, user, kind), at, f)
         == Tally(t, at, f)
            + (if at == idea && Lookup(t, idea, user).Some?
               then f(Row(idea, user, kind)) - SlotValue(Lookup(t, idea, user), idea, user, f)
               else 0)
  {
    if |t| > 0 {
      var r := SetKind(t, idea, user, kind);
      assert r[1..] == SetKind(t[1..], idea, user, kind);
      TallySetKind(t[1..], idea, user, kind, f, at);
      assert OnePerPair(t[1..]);
      if Matches(t[0], idea, user) {
        assert Lookup(t[1..], idea, user) == None by {
          forall j | 0 <= j < |t[1..]| ensures !Matches(t[1..][j], idea, user) {
            assert t[1..][j] == t[j + 1];
          }
        }
        assert t[0] == Row(idea, user, t[0].kind);
      }
    }
  }

  lemma {:induction false} TallyAppend(t: seq<Row>, row: Row, f: Row -> int, at: int)
    ensures Tally(t + [row], at, f) == Tally(t, at, f) + (if row.ideaId == at then f(row) else 0)
  {
    if |t| > 0 {
      assert (t + [row])[1..] == t[1..] + [row];
      TallyAppend(t[1..], row, f, at);
    } else {
      assert t + [row] == [row];
    }
  }

  /** Row weight for `COUNT(*) ... AND reaction_type = kind`. */
  function IsKind(kind: Reaction): Row -> int
  {
    (row: Row) => if row.kind == kind then 1 else 0
  }

  /** Likes or dislikes of an idea. */
  function CountKind(t: seq<Row>, idea: int, kind: Reaction): int
  {
    Tally(t, idea, IsKind(kind))
  }

  /** The points weight: 10 for a CEO's like, 1 for any other like, -1 for a
      dislike. */
  function Weight(role: string, kind: Reaction): int
  {
    match kind
    case Like => if role == "ceo" then 10 else 1
    case Dislike => -1
  }

  /** `JOIN users`: a row whose user is not in `roles` contributes nothing. */
  function PointWeight(roles: map<int, string>): Row -> int
  {
    (row: Row) => if row.userId in roles then Weight(roles[row.userId], row.kind) else 0
  }

  /** `points` of an idea. */
  function Points(t: seq<Row>, idea: int, roles: map<int, string>): int
  {
    Tally(t, idea, PointWeight(roles))
  }

  /** Without CEO votes (and with every voter a known user), points are just
      likes minus dislikes. */
  lemma {:induction false} PointsWithoutCeo(t: seq<Row>, idea: int, roles: map<int, string>)
    requires forall k :: 0 <= k < |t| && t[k].ideaId == idea ==>
      t[k].userId in roles && roles[t[k].userId] != "ceo"
    ensures Points(t, idea, roles) == CountKind(t, idea, Like) - CountKind(t, idea, Dislike)
  {
    if |t| > 0 {
      assert t[0].ideaId == idea ==> t[0].userId in roles && roles[t[0].userId] != "ceo";
      assert forall k :: 0 <= k < |t[1..]| ==> t[1..][k] == t[k + 1];
      PointsWithoutCeo(t[1..], idea, roles);
    }
  }

  /** Points lie between minus the dislikes and ten times the likes (every
      like being a CEO's). */
  lemma {:induction false} PointsBounds(t: seq<Row>, idea: int, roles: map<int, string>)
    ensures -CountKind(t, idea, Dislike) <= Points(t, idea, roles)
    ensures Points(t, idea, roles) <= 10 * CountKind(t, idea, Like)
  {
    if |t| > 0 {
      PointsBounds(t[1..], idea, roles);
    }
  }

  /** A rejected request (400), a request the database refused (the
      exception escapes the view, so Flask answers 500 and nothing is
      committed), or the 200 with the database after the request and the
      JSON reply. */
  datatype ReactResult =
    | BadRequest(error: string)
    | ServerError(code: int)
    | Reacted(db: Db, reply: Reactions.ReactReply)

  /** The database slices the endpoint touches; `roles` is `users.role` by id. */
  datatype Db = Db(
    reactions: seq<Row>,
    ideas: map<int, ServerDb.IdeaRow>,
    roles: map<int, string>,
    notifications: seq<ServerDb.Notification>)

  /** The two foreign keys of the table: every row names an idea in `ideas`
      and a user in `users`. */
  predicate RowsExist(t: seq<Row>, ideas: set<int>, users: set<int>)
  {
    forall k :: 0 <= k < |t| ==> t[k].ideaId in ideas && t[k].userId in users
  }

  /** The table's unique key on (idea_id, user_id) and its foreign keys. */
  predicate Valid(db: Db)
  {
    OnePerPair(db.reactions) && RowsExist(db.reactions, db.ideas.Keys, db.roles.Keys)
  }

  /** The request body's `reactionType`. */
  function ParseReaction(s: string): (r: Option<Reaction>)
    ensures r == Some(Like) <==> s == "like"
    ensures r == Some(Dislike) <==> s == "dislike"
  {
    if s == "like" then Some(Like) else if s == "dislike" then Some(Dislike) else None
  }

  function ReactionName(kind: Reaction): string
  {
    match kind
    case Like => "like"
    case Dislike => "dislike"
  }

  /** The names the client sends and the names the server accepts are the
      same two: each kind's name parses back to it, and every accepted
      string is the name of what it parses to. */
  lemma ParseReactionRoundTrip(kind: Reaction, s: string)
    ensures ParseReaction(ReactionName(kind)) == Some(kind)
    ensures ParseReaction(s).Some? ==> ReactionName(ParseReaction(s).value) == s
  {
  }

  /** The status a CEO's vote sets. */
  function CeoStatus(kind: Reaction): string
  {
    match kind
    case Like => "Approved"
    case Dislike => "Rejected"
  }

  /** The CEO rule, applied after the table step: a CEO's added or updated
      vote sets the idea's status (if it differs) and notifies the owner. */
  function CeoRule(db: Db, idea: int, role: string, kind: Reaction, change: Change): (out: Db)
    ensures out.reactions == db.reactions && out.roles == db.roles
    ensures out.ideas.Keys == db.ideas.Keys
    ensures forall i :: i in db.ideas && i != idea ==> out.ideas[i] == db.ideas[i]
    ensures var fires := role == "ceo" && change != Removed && idea in db.ideas
                         && db.ideas[idea].status != CeoStatus(kind);
      && (fires ==>
            && out.ideas[idea] == db.ideas[idea].(status := CeoStatus(kind))
            && out.notifications == db.notifications + [ServerDb.Notification(
                 db.ideas[idea].ownerId, idea,
                 ServerDb.CeoStatusMessage(db.ideas[idea].title, CeoStatus(kind)))])
      && (!fires ==> out == db)
  {
    if role == "ceo" && change != Removed && idea in db.ideas
       && db.ideas[idea].status != CeoStatus(kind) then
      var row := db.ideas[idea];
      db.(ideas := db.ideas[idea := row.(status := CeoStatus(kind))],
          notifications := db.notifications
            + [ServerDb.Notification(row.ownerId, idea, ServerDb.CeoStatusMessage(row.title, CeoStatus(kind)))])
    else
      db
  }

  /** `POST /api/ideas/{idea}/react` by `user` with role `role`. When the
      user has no row for the idea the endpoint INSERTs one, which the
      foreign keys refuse for an idea or a user that no longer exists (the
      idea was deleted after the list was loaded, say): the request then
      fails with 500 and nothing is stored. */
  function ReactToIdea(db: Db, idea: int, user: int, role: string, reactionType: string): (r: ReactResult)
    requires Valid(db)
    ensures ParseReaction(reactionType).None? <==> r == BadRequest("Invalid reaction type")
    ensures r.ServerError? <==>
      ParseReaction(reactionType).Some? && (idea !in db.ideas || user !in db.roles)
    ensures r.ServerError? ==> r.code == 500
    ensures r.Reacted? ==>
      var kind := ParseReaction(reactionType).value;
      && Valid(r.db)
      && r.reply.likes == CountKind(r.db.reactions, idea, Like)
      && r.reply.dislikes == CountKind(r.db.reactions, idea, Dislike)
      && r.reply.points == Points(r.db.reactions, idea, r.db.roles)
      && (r.reply.userReaction == None <==> Lookup(db.reactions, idea, user) == Some(kind))
      && (r.reply.userReaction != None ==> r.reply.userReaction == Some(kind))
      && Lookup(r.db.reactions, idea, user) == r.reply.userReaction
      && (r.reply.message == "Reaction removed" <==> r.reply.userReaction == None)
  {
    match ParseReaction(reactionType)
    case None => BadRequest("Invalid reaction type")
    case Some(kind) =>
      var (t, change) := ApplyReaction(db.reactions, idea, user, kind);
      if change == Added && (idea !in db.ideas || user !in db.roles) then
        ServerError(500)
      else
        RowsNameIdeaAndUser(db, idea, user, kind);
        var after := CeoRule(db.(reactions := t), idea, role, kind, change);
        var reply := Reactions.ReactReply(
          ChangeMessage(change),
          CountKind(t, idea, Like),
          CountKind(t, idea, Dislike),
          Points(t, idea, db.roles),
          if change == Removed then None else Some(kind));
        Reacted(after, reply)
  }

  /** A user's existing row names an existing idea and user, so only an
      INSERT can break a foreign key; and whatever the step leaves behind
      still satisfies both keys when the idea and the user exist. */
  lemma RowsNameIdeaAndUser(db: Db, idea: int, user: int, kind: Reaction)
    requires Valid(db)
    ensures Lookup(db.reactions, idea, user).Some? ==> idea in db.ideas && user in db.roles
    ensures idea in db.ideas && user in db.roles ==>
      Valid(db.(reactions := ApplyReaction(db.reactions, idea, user, kind).0))
  {
    var t := db.reactions;
    if Lookup(t, idea, user).Some? {
      var j :| 0 <= j < |t| && Matches(t[j], idea, user) && t[j].kind == Lookup(t, idea, user).value;
    }
    if idea in db.ideas && user in db.roles {
      ApplyReactionRowsExist(t, idea, user, kind, db.ideas.Keys, db.roles.Keys);
    }
  }

  lemma ApplyReactionRowsExist(t: seq<Row>, idea: int, user: int, kind: Reaction, ideas: set<int>, users: set<int>)
    requires OnePerPair(t) && RowsExist(t, ideas, users) && idea in ideas && user in users
    ensures RowsExist(ApplyReaction(t, idea, user, kind).0, ideas, users)
  {
    match Lookup(t, idea, user)
    case None =>
      assert ApplyReaction(t, idea, user, kind).0 == t + [Row(idea, user, kind)];
    case Some(existing) =>
      if existing == kind {
        RemoveRowsExist(t, idea, user, ideas, users);
      } else {
        SetKindRowsExist(t, idea, user, kind, ideas, users);
      }
  }

  lemma RemoveRowsExist(t: seq<Row>, idea: int, user: int, ideas: set<int>, users: set<int>)
    requires RowsExist(t, ideas, users)
    ensures RowsExist(Remove(t, idea, user), ideas, users)
  {
    var r := Remove(t, idea, user);
    forall k | 0 <= k < |r| ensures r[k].ideaId in ideas && r[k].userId in users {
      assert r[k] in t;
    }
  }

  lemma SetKindRowsExist(t: seq<Row>, idea: int, user: int, kind: Reaction, ideas: set<int>, users: set<int>)
    requires RowsExist(t, ideas, users)
    ensures RowsExist(SetKind(t, idea, user, kind), ideas, users)
  {
    var r := SetKind(t, idea, user, kind);
    forall k | 0 <= k < |r| ensures r[k].ideaId in ideas && r[k].userId in users {
      assert r[k].ideaId == t[k].ideaId && r[k].userId == t[k].userId;
    }
  }

  /** A valid reaction type is stored exactly when the idea and the user
      exist, and then the table holds the result of the step. */
  lemma ReactionStored(db: Db, idea: int, user: int, role: string, kind: Reaction)
    requires Valid(db)
    ensures var r := ReactToIdea(db, idea, user, role, ReactionName(kind));
      && (r.Reacted? <==> idea in db.ideas && user in db.roles)
      && (!r.Reacted? ==> r == ServerError(500))
      && (r.Reacted? ==> r.db.reactions == ApplyReaction(db.reactions, idea, user, kind).0)
  {
    RowsNameIdeaAndUser(db, idea, user, kind);
  }

  /** A CEO vote changes the idea's status exactly when it is added or
      updated (not removed), the idea exists and its status differs from the
      one the vote stands for; nobody else's vote ever changes a status, and
      no other idea is touched. */
  lemma CeoStatusRule(db: Db, idea: int, user: int, role: string, kind: Reaction)
    requires Valid(db)
    ensures var r := ReactToIdea(db, idea, user, role, ReactionName(kind));
      r.Reacted? ==>
      && r.db.ideas.Keys == db.ideas.Keys
      && (forall i :: i in db.ideas && i != idea ==> r.db.ideas[i] == db.ideas[i])
      && (var fires := role == "ceo" && r.reply.userReaction.Some? && idea in db.ideas
                       && db.ideas[idea].status != CeoStatus(kind);
          && (fires ==> r.db.ideas[idea] == db.ideas[idea].(status := CeoStatus(kind))
                        && |r.db.notifications| == |db.notifications| + 1)
          && (!fires ==> r.db.ideas == db.ideas && r.db.notifications == db.notifications))
  {
  }

  /** At the level of the endpoint: once a request has been stored, sending
      it again is stored too and leaves the user's slot and every count as
      they were before the first one. */
  lemma ReactTwiceAtServer(db: Db, idea: int, user: int, role: string, kind: Reaction, at: int, kind': Reaction)
    requires Valid(db) && Lookup(db.reactions, idea, user) != Some(Reactions.Opposite(kind))
    ensures var once := ReactToIdea(db, idea, user, role, ReactionName(kind));
      once.Reacted? ==>
        var twice := ReactToIdea(once.db, idea, user, role, ReactionName(kind));
        && twice.Reacted?
        && Lookup(twice.db.reactions, idea, user) == Lookup(db.reactions, idea, user)
        && CountKind(twice.db.reactions, at, kind') == CountKind(db.reactions, at, kind')
  {
    var once := ReactToIdea(db, idea, user, role, ReactionName(kind));
    if once.Reacted? {
      ReactionStored(db, idea, user, role, kind);
      CeoStatusRule(db, idea, user, role, kind);
      ReactionStored(once.db, idea, user, role, kind);
      ReactTwiceRestoresTable(db.reactions, idea, user, kind, at, kind');
    }
  }

  /** Reacting twice with the same type leaves the table as it was, whenever
      the user had no reaction or that same one before: two toggles cancel. */
  lemma ReactTwiceRestoresTable(t: seq<Row>, idea: int, user: int, kind: Reaction, at: int, kind': Reaction)
    requires OnePerPair(t) && Lookup(t, idea, user) != Some(Reactions.Opposite(kind))
    ensures var once := ApplyReaction(t, idea, user, kind).0;
      var twice := ApplyReaction(once, idea, user, kind).0;
      && Lookup(twice, idea, user) == Lookup(t, idea, user)
      && CountKind(twice, at, kind') == CountKind(t, at, kind')
  {
    var once := ApplyReaction(t, idea, user, kind).0;
    ApplyReactionTally(t, idea, user, kind, IsKind(kind'), at);
    ApplyReactionTally(once, idea, user, kind, IsKind(kind'), at);
    match Lookup(t, idea, user)
    case None =>
    case Some(r) => assert r == kind || r == Reactions.Opposite(kind);
  }
}
