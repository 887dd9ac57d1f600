/** `GET /api/ideas` (`handle_ideas` in app.py): which stored ideas a user
    sees and what each row carries. Drafts are private to their owner; the
    query-string filters narrow the list further; every row is decorated with
    its reaction counts, its points and the caller's own reaction. */
module IdeaQuery {
  import opened Wrappers
  import opened Ideas
  import Text
  import ReactionTable
  import Seqs

  /** A row of `ideas` with the columns the query reads. */
  datatype StoredIdea = StoredIdea(
    id: int,
    ownerId: int,
    employeeName: string,
    company: string,
    ideaTitle: string,
    ideaCategory: string,
    departments: Departments,
    status: string,
    submissionDate: int)

  /** The query-string filters. Python's `if search:` treats a missing
      argument and an empty one alike, so both are "" here; the date bounds
      are day numbers compared with the idea's submission day. */
  datatype Filters = Filters(
    search: string,
    status: string,
    category: string,
    company: string,
    startDate: Option<int>,
    endDate: Option<int>)

  const NoFilters := Filters("", "", "", "", None, None)

  /** `(i.status != 'Draft' OR i.user_id = %s)`. */
  predicate DraftVisible(i: StoredIdea, user: int)
  {
    i.status != "Draft" || i.ownerId == user
  }

  /** The optional WHERE clauses; `LIKE '%s%'` is a substring test
      (case-sensitively, see README). */
  predicate PassesFilters(i: StoredIdea, f: Filters)
  {
    && (f.search == "" || Text.Contains(i.ideaTitle, f.search) || Text.Contains(i.employeeName, f.search))
    && (f.status == "" || i.status == f.status)
    && (f.category == "" || i.ideaCategory == f.category)
    && (f.company == "" || i.company == f.company)
    && (f.startDate.None? || i.submissionDate >= f.startDate.value)
    && (f.endDate.None? || i.submissionDate <= f.endDate.value)
  }

  predicate Selected(i: StoredIdea, user: int, f: Filters)
  {
    DraftVisible(i, user) && PassesFilters(i, f)
  }

  /** One result row: the stored columns plus the reaction subqueries.
      `netScore` is not sent by the server; the browser derives it, so the
      model fills in that derived value. */
  function Decorate(i: StoredIdea, t: seq<ReactionTable.Row>, roles: map<int, string>, user: int): (r: Idea)
    ensures r.id == i.id && r.userId == i.ownerId && r.status == i.status
    ensures r.ideaTitle == i.ideaTitle && r.employeeName == i.employeeName && r.company == i.company
    ensures r.ideaCategory == i.ideaCategory && r.departments == i.departments
    ensures r.submissionDate == i.submissionDate
    ensures r.likes == Some(ReactionTable.CountKind(t, i.id, Like))
    ensures r.dislikes == Some(ReactionTable.CountKind(t, i.id, Dislike))
    ensures r.points == ReactionTable.Points(t, i.id, roles)
    ensures r.userReaction == ReactionTable.Lookup(t, i.id, user)
    ensures r.netScore == ComputedNetScore(r)
  {
    var likes := ReactionTable.CountKind(t, i.id, Like);
    var dislikes := ReactionTable.CountKind(t, i.id, Dislike);
    Idea(i.id, i.ownerId, i.employeeName, i.company, i.ideaTitle, i.ideaCategory, i.departments,
         i.status, i.submissionDate, Some(likes), Some(dislikes),
         ReactionTable.Points(t, i.id, roles), ReactionTable.Lookup(t, i.id, user), likes - dislikes)
  }

  /** `x` is the row of some selected idea. */
  predicate RowOfSelected(x: Idea, ideas: seq<StoredIdea>, t: seq<ReactionTable.Row>, roles: map<int, string>,
                          user: int, f: Filters)
  {
    exists j :: 0 <= j < |ideas| && Selected(ideas[j], user, f) && x == Decorate(ideas[j], t, roles, user)
  }

  /** The selected ideas, decorated, in table order. */
  function ListIdeas(ideas: seq<StoredIdea>, t: seq<ReactionTable.Row>, roles: map<int, string>,
                     user: int, f: Filters): (r: seq<Idea>)
    ensures |r| <= |ideas|
    ensures |r| == Seqs.CountWhere(ideas, (i: StoredIdea) => Selected(i, user, f))
    ensures forall k :: 0 <= k < |r| ==> RowOfSelected(r[k], ideas, t, roles, user, f)
    ensures forall j :: 0 <= j < |ideas| && Selected(ideas[j], user, f) ==>
      Decorate(ideas[j], t, roles, user) in r
  {
    var kept := Seqs.Filter(ideas, (i: StoredIdea) => Selected(i, user, f));
    assert forall k :: 0 <= k < |kept| ==> kept[k] in ideas && Selected(kept[k], user, f);
    assert forall j :: 0 <= j < |ideas| && Selected(ideas[j], user, f) ==> ideas[j] in kept;
    var r := DecorateAll(kept, t, roles, user);
    KeptRows(ideas, kept, r, t, roles, user, f);
    r
  }

  /** Decorating the kept ideas gives a row for each selected idea and only those. */
  lemma KeptRows(ideas: seq<StoredIdea>, kept: seq<StoredIdea>, r: seq<Idea>, t: seq<ReactionTable.Row>,
                 roles: map<int, string>, user: int, f: Filters)
    requires forall k :: 0 <= k < |kept| ==> kept[k] in ideas && Selected(kept[k], user, f)
    requires forall j :: 0 <= j < |ideas| && Selected(ideas[j], user, f) ==> ideas[j] in kept
    requires |r| == |kept| && forall k :: 0 <= k < |r| ==> r[k] == Decorate(kept[k], t, roles, user)
    ensures forall k :: 0 <= k < |r| ==> RowOfSelected(r[k], ideas, t, roles, user, f)
    ensures forall j :: 0 <= j < |ideas| && Selected(ideas[j], user, f) ==> Decorate(ideas[j], t, roles, user) in r
  {
    forall k | 0 <= k < |r|
      ensures RowOfSelected(r[k], ideas, t, roles, user, f)
    {
      var j :| 0 <= j < |ideas| && ideas[j] == kept[k];
      assert r[k] == Decorate(ideas[j], t, roles, user);
    }
    forall j | 0 <= j < |ideas| && Selected(ideas[j], user, f)
      ensures Decorate(ideas[j], t, roles, user) in r
    {
      var k :| 0 <= k < |kept| && kept[k] == ideas[j];
      assert r[k] == Decorate(ideas[j], t, roles, user);
    }
  }

  /** The rows of the selected ideas, one for one. */
  function DecorateAll(kept: seq<StoredIdea>, t: seq<ReactionTable.Row>, roles: map<int, string>,
                       user: int): (r: seq<Idea>)
    ensures |r| == |kept|
    ensures forall k :: 0 <= k < |r| ==> r[k] == Decorate(kept[k], t, roles, user)
  {
    seq(|kept|, k requires 0 <= k < |kept| => Decorate(kept[k], t, roles, user))
  }

  /** Nobody sees someone else's draft, whatever the filters. */
  lemma NoForeignDrafts(ideas: seq<StoredIdea>, t: seq<ReactionTable.Row>, roles: map<int, string>,
                        user: int, f: Filters, k: int)
    requires 0 <= k < |ListIdeas(ideas, t, roles, user, f)|
    ensures var r := ListIdeas(ideas, t, roles, user, f);
      r[k].status == "Draft" ==> r[k].userId == user
  {
  }

  /** Without filters the list is exactly the draft rule: every non-draft and
      every own draft appears. */
  lemma UnfilteredShowsAllVisible(ideas: seq<StoredIdea>, t: seq<ReactionTable.Row>,
                                  roles: map<int, string>, user: int, j: int)
    requires 0 <= j < |ideas|
    ensures Decorate(ideas[j], t, roles, user) in ListIdeas(ideas, t, roles, user, NoFilters)
        <== DraftVisible(ideas[j], user)
  {
  }

  /** Every row the browser receives agrees with the reaction table: its
      counts are the recount and its reaction is the caller's row. */
  lemma RowsInSync(ideas: seq<StoredIdea>, t: seq<ReactionTable.Row>, roles: map<int, string>,
                   user: int, f: Filters, k: int)
    requires 0 <= k < |ListIdeas(ideas, t, roles, user, f)|
    ensures var i := ListIdeas(ideas, t, roles, user, f)[k];
      && OrZero(i.likes) == ReactionTable.CountKind(t, i.id, Like)
      && OrZero(i.dislikes) == ReactionTable.CountKind(t, i.id, Dislike)
      && i.userReaction == ReactionTable.Lookup(t, i.id, user)
  {
  }
}
