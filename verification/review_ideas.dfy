/** "My Ideas" (ReviewIdeas.js): the user's ideas split into submitted ones
    and drafts, the two tabs, the actions each status offers, the status
    badge, the expandable row and the withdrawal confirmation. */
module ReviewIdeas {
  import opened Wrappers
  import opened Ideas
  import Seqs

  predicate IsDraft(idea: Idea)
  {
    idea.status == "Draft"
  }

  predicate NotDraft(idea: Idea)
  {
    idea.status != "Draft"
  }

  /** `submittedIdeas`: every idea that is not a draft, in list order. */
  function SubmittedIdeas(ideas: seq<Idea>): (r: seq<Idea>)
    ensures forall k :: 0 <= k < |r| ==> r[k].status != "Draft"
    ensures forall k :: 0 <= k < |ideas| ==> (ideas[k] in r <==> ideas[k].status != "Draft")
    ensures Seqs.IsSubsequence(r, ideas)
  {
    Seqs.FilterIsSubsequence(ideas, NotDraft);
    Seqs.Filter(ideas, NotDraft)
  }

  /** `draftIdeas`: the drafts, in list order. */
  function DraftIdeas(ideas: seq<Idea>): (r: seq<Idea>)
    ensures forall k :: 0 <= k < |r| ==> r[k].status == "Draft"
    ensures forall k :: 0 <= k < |ideas| ==> (ideas[k] in r <==> ideas[k].status == "Draft")
    ensures Seqs.IsSubsequence(r, ideas)
  {
    Seqs.FilterIsSubsequence(ideas, IsDraft);
    Seqs.Filter(ideas, IsDraft)
  }

  /** The two lists partition the user's ideas: together they hold every
      idea exactly as often as the list does, and no idea is in both. */
  lemma Partition(ideas: seq<Idea>)
    ensures multiset(SubmittedIdeas(ideas)) + multiset(DraftIdeas(ideas)) == multiset(ideas)
    ensures |SubmittedIdeas(ideas)| + |DraftIdeas(ideas)| == |ideas|
    ensures forall x :: !(x in SubmittedIdeas(ideas) && x in DraftIdeas(ideas))
  {
    Seqs.FilterPartition(ideas, NotDraft, IsDraft);
  }

  datatype Tab = SubmittedTab | DraftsTab

  /** `ideasToShow`. */
  function IdeasToShow(ideas: seq<Idea>, tab: Tab): (r: seq<Idea>)
    ensures tab == SubmittedTab ==> r == SubmittedIdeas(ideas)
    ensures tab == DraftsTab ==> r == DraftIdeas(ideas)
  {
    if tab == SubmittedTab then SubmittedIdeas(ideas) else DraftIdeas(ideas)
  }

  /** The edit button: drafts only. */
  predicate CanEdit(idea: Idea)
  {
    idea.status == "Draft"
  }

  /** The withdraw button: ideas nobody has reviewed yet. */
  predicate CanWithdraw(idea: Idea)
  {
    idea.status == "Submitted" || idea.status == "Draft"
  }

  /** What each tab offers: on the drafts tab every row can be edited and
      withdrawn; on the submitted tab nothing can be edited, and only ideas
      still "Submitted" can be withdrawn. */
  lemma ActionsByTab(ideas: seq<Idea>, k: nat)
    ensures k < |DraftIdeas(ideas)| ==>
      CanEdit(DraftIdeas(ideas)[k]) && CanWithdraw(DraftIdeas(ideas)[k])
    ensures k < |SubmittedIdeas(ideas)| ==>
      !CanEdit(SubmittedIdeas(ideas)[k])
      && (CanWithdraw(SubmittedIdeas(ideas)[k]) <==> SubmittedIdeas(ideas)[k].status == "Submitted")
  {
  }

  /** `getStatusClass`: the badge classes of the six known statuses, and a
      plain grey for any other. */
  function StatusClass(status: string): (r: string)
    ensures status == "Draft" ==> r == "bg-gray-100 text-gray-800 border-gray-200"
    ensures status == "Approved" ==> r == "bg-green-100 text-green-800 border-green-200"
    ensures status !in KnownStatuses ==> r == "bg-gray-100 text-gray-800"
  {
    if status == "Submitted" then "bg-blue-100 text-blue-800 border-blue-200"
    else if status == "Under Review" then "bg-yellow-100 text-yellow-800 border-yellow-200"
    else if status == "Shortlisted" then "bg-purple-100 text-purple-800 border-purple-200"
    else if status == "Approved" then "bg-green-100 text-green-800 border-green-200"
    else if status == "Rejected" then "bg-red-50 text-red-800 border-red-100"
    else if status == "Draft" then "bg-gray-100 text-gray-800 border-gray-200"
    else "bg-gray-100 text-gray-800"
  }

  const KnownStatuses: seq<string> := ["Submitted", "Under Review", "Shortlisted", "Approved", "Rejected", "Draft"]

  /** The badges of the known statuses, in the order of `KnownStatuses`. */
  const Badges: seq<string> := [
    "bg-blue-100 text-blue-800 border-blue-200", "bg-yellow-100 text-yellow-800 border-yellow-200",
    "bg-purple-100 text-purple-800 border-purple-200", "bg-green-100 text-green-800 border-green-200",
    "bg-red-50 text-red-800 border-red-100", "bg-gray-100 text-gray-800 border-gray-200"]

  /** Each known status gets its own badge, and a status outside the list
      (such as "Implemented") gets one none of them has. */
  lemma StatusClassesDistinct(i: nat, j: nat)
    requires i < j < 6
    ensures StatusClass(KnownStatuses[i]) == Badges[i]
    ensures StatusClass(KnownStatuses[i]) != StatusClass(KnownStatuses[j])
    ensures StatusClass(KnownStatuses[i]) != StatusClass("Implemented")
  {
    assert Badges[i][5] != Badges[j][5];
    assert |Badges[i]| != |StatusClass("Implemented")|;
  }

  // ---------------------------------------------------------------------
  // page state

  /** The page's state: the loaded ideas, the expanded row, the open tab and
      the withdrawal dialog with its target. */
  datatype Page = Page(ideas: seq<Idea>, expanded: Option<int>, tab: Tab, showConfirm: bool,
                       toWithdraw: Option<Idea>)

  /** The expand button of row `id`: a second click collapses it, a click on
      another row moves the expansion there. */
  function ToggleExpand(p: Page, id: int): (r: Page)
    ensures p.expanded == Some(id) ==> r.expanded.None?
    ensures p.expanded != Some(id) ==> r.expanded == Some(id)
    ensures r == p.(expanded := r.expanded)
  {
    p.(expanded := if p.expanded == Some(id) then None else Some(id))
  }

  /** Clicking the same row twice restores the page. */
  lemma ToggleExpandTwice(p: Page, id: int)
    requires p.expanded.None? || p.expanded == Some(id)
    ensures ToggleExpand(ToggleExpand(p, id), id) == p
  {
  }

  /** The comments of the expanded idea are loaded when its id is truthy
      (an id of 0 loads nothing). */
  predicate LoadsComments(p: Page)
  {
    p.expanded.Some? && p.expanded.value != 0
  }

  /** Where a row action leads. */
  datatype Next = Stay | EditIdea(idea: Idea)

  datatype Action = Edit | Withdraw

  /** `handleAction`: edit opens the form with the idea; withdraw asks for
      confirmation first. */
  function HandleAction(p: Page, action: Action, idea: Idea): (r: (Page, Next))
    ensures action == Edit ==> r == (p, EditIdea(idea))
    ensures action == Withdraw ==> r.0 == p.(showConfirm := true, toWithdraw := Some(idea)) && r.1 == Stay
  {
    match action
    case Edit => (p, EditIdea(idea))
    case Withdraw => (p.(showConfirm := true, toWithdraw := Some(idea)), Stay)
  }

  /** The answer to the `DELETE`, and to the reload that follows a success.
      `DeleteThrew` is a `fetch` that rejects (the network fails): nothing in
      `confirmWithdraw` catches it. */
  datatype DeleteResponse = Deleted(reloaded: Option<seq<Idea>>) | DeleteFailed | DeleteThrew

  /** `confirmWithdraw`: without a target nothing happens; otherwise the
      target's id is sent in a `DELETE`. When the request throws, the
      function stops there and the page is left as it was, dialog open; on
      any answer the dialog closes with its target cleared, and a success
      reloads the list (when the reload succeeds). Returns the id sent in
      the `DELETE`, if any. */
  function ConfirmWithdraw(p: Page, response: DeleteResponse): (r: (Page, Option<int>))
    ensures p.toWithdraw.None? ==> r == (p, None)
    ensures p.toWithdraw.Some? ==> r.1 == Some(p.toWithdraw.value.id)
    ensures p.toWithdraw.Some? && response.DeleteThrew? ==> r.0 == p
    ensures p.toWithdraw.Some? && !response.DeleteThrew? ==>
      && !r.0.showConfirm && r.0.toWithdraw.None?
      && r.0.expanded == p.expanded && r.0.tab == p.tab
    ensures p.toWithdraw.Some? && response.Deleted? && response.reloaded.Some? ==>
      r.0.ideas == response.reloaded.value
    ensures !(response.Deleted? && response.reloaded.Some?) ==> r.0.ideas == p.ideas
  {
    if p.toWithdraw.None? then (p, None)
    else if response.DeleteThrew? then (p, Some(p.toWithdraw.value.id))
    else
      var ideas := if response.Deleted? && response.reloaded.Some? then response.reloaded.value else p.ideas;
      (p.(ideas := ideas, showConfirm := false, toWithdraw := None), Some(p.toWithdraw.value.id))
  }

  /** Asking to withdraw an idea and confirming deletes exactly that idea.
      When the `DELETE` answers, the dialog is left as it was before the
      request; when it throws, the dialog stays open on that idea, so a
      second confirmation sends the same id again. Asking to edit instead
      opens the form with the idea and leaves the page alone. */
  lemma WithdrawThenConfirm(p: Page, idea: Idea, response: DeleteResponse)
    requires !p.showConfirm && p.toWithdraw.None?
    ensures var (q, _) := HandleAction(p, Withdraw, idea);
      var (r, deleted) := ConfirmWithdraw(q, response);
      && deleted == Some(idea.id)
      && (!response.DeleteThrew? ==> !r.showConfirm && r.toWithdraw.None?)
      && (response.DeleteThrew? ==>
            r.showConfirm && r.toWithdraw == Some(idea)
            && ConfirmWithdraw(r, response).1 == Some(idea.id))
    ensures HandleAction(p, Edit, idea) == (p, EditIdea(idea))
  {
  }
}
