/** The admin dashboard's rules (AdminDashboard.js) other than the chart
    tallies: who may open it, who may delete which idea, the query built from
    the filters, the local patch after a status change, the delete
    confirmation, and the option lists taken from the form configuration. */
module Dashboard {
  import opened Wrappers
  import opened Ideas
  import Seqs
  import FormConfig
  import StatusUpdates
  import MultiSelect

  // ---------------------------------------------------------------------
  // access

  /** The page is for admins and the superadmin; anyone else (or nobody) is
      sent to the login. */
  predicate MayOpen(role: Option<string>)
  {
    role == Some("admin") || role == Some("superadmin")
  }

  /** `canDeleteIdea`: the superadmin may delete anything; an admin anything
      not yet approved or implemented; nobody else anything. */
  function CanDeleteIdea(role: string, status: string): (r: bool)
    ensures role == "superadmin" ==> r
    ensures role == "admin" ==> (r <==> status != "Approved" && status != "Implemented")
    ensures role != "superadmin" && role != "admin" ==> !r
  {
    if role == "superadmin" then true
    else if role == "admin" && status != "Approved" && status != "Implemented" then true
    else false
  }

  /** The superadmin's rights include the admin's. */
  lemma SuperadminMayDeleteMore(status: string)
    ensures CanDeleteIdea("admin", status) ==> CanDeleteIdea("superadmin", status)
    ensures CanDeleteIdea("admin", status) <==>
              (CanDeleteIdea("superadmin", status) && status != "Approved" && status != "Implemented")
  {
  }

  // ---------------------------------------------------------------------
  // filters

  /** The six filter inputs. */
  datatype Filters = Filters(search: string, status: string, category: string, company: string,
                             startDate: string, endDate: string)

  const NoFilters := Filters("", "", "", "", "", "")

  datatype FilterName = Search | Status | Category | Company | StartDate | EndDate

  /** `Object.entries(filters)`, in the order the state object was built. */
  function Entries(f: Filters): (r: seq<(string, string)>)
    ensures |r| == 6
  {
    [("search", f.search), ("status", f.status), ("category", f.category), ("company", f.company),
     ("startDate", f.startDate), ("endDate", f.endDate)]
  }

  /** `handleFilterChange`: one input changes, the others keep their value. */
  function SetFilter(f: Filters, name: FilterName, value: string): (r: Filters)
    ensures Entries(r)[Index(name)] == (Entries(f)[Index(name)].0, value)
    ensures forall k :: 0 <= k < 6 && k != Index(name) ==> Entries(r)[k] == Entries(f)[k]
  {
    match name
    case Search => f.(search := value)
    case Status => f.(status := value)
    case Category => f.(category := value)
    case Company => f.(company := value)
    case StartDate => f.(startDate := value)
    case EndDate => f.(endDate := value)
  }

  function Index(name: FilterName): (k: nat)
    ensures k < 6
  {
    match name
    case Search => 0
    case Status => 1
    case Category => 2
    case Company => 3
    case StartDate => 4
    case EndDate => 5
  }

  predicate NonEmptyValue(entry: (string, string))
  {
    entry.1 != ""
  }

  /** The query parameters: the filters with a non-empty value, in order. */
  function QueryParams(f: Filters): (r: seq<(string, string)>)
    ensures forall k :: 0 <= k < |r| ==> r[k].1 != "" && r[k] in Entries(f)
    ensures forall k :: 0 <= k < 6 && Entries(f)[k].1 != "" ==> Entries(f)[k] in r
    ensures Seqs.IsSubsequence(r, Entries(f))
  {
    Seqs.FilterIsSubsequence(Entries(f), NonEmptyValue);
    Seqs.Filter(Entries(f), NonEmptyValue)
  }

  /** With every filter cleared the request carries no parameter, and
      setting one filter to a value adds exactly that parameter. */
  lemma ParamsOfOneFilter(name: FilterName, value: string)
    requires value != ""
    ensures QueryParams(NoFilters) == []
    ensures QueryParams(SetFilter(NoFilters, name, value)) == [(Entries(NoFilters)[Index(name)].0, value)]
  {
    var e := Entries(SetFilter(NoFilters, name, value));
    var only := (Entries(NoFilters)[Index(name)].0, value);
    assert e[Index(name)] == only;
    FilterSingle(e, Index(name));
    EmptyFilter(Entries(NoFilters));
  }

  /** Filtering out the empty values of a list whose only non-empty value is
      at `i` leaves that entry alone. */
  lemma {:induction false} FilterSingle(e: seq<(string, string)>, i: nat)
    requires i < |e| && e[i].1 != ""
    requires forall k :: 0 <= k < |e| && k != i ==> e[k].1 == ""
    ensures Seqs.Filter(e, NonEmptyValue) == [e[i]]
  {
    if i == 0 {
      Seqs.FilterAppend([e[0]], e[1..], NonEmptyValue);
      assert [e[0]] + e[1..] == e;
      EmptyFilter(e[1..]);
    } else {
      FilterSingle(e[1..], i - 1);
      assert Seqs.Filter(e, NonEmptyValue) == Seqs.Filter(e[1..], NonEmptyValue);
    }
  }

  lemma {:induction false} EmptyFilter(e: seq<(string, string)>)
    requires forall k :: 0 <= k < |e| ==> e[k].1 == ""
    ensures Seqs.Filter(e, NonEmptyValue) == []
  {
    if |e| > 0 {
      EmptyFilter(e[1..]);
    }
  }

  // ---------------------------------------------------------------------
  // status changes

  /** The local patch after the server accepted a status change. */
  function PatchStatus(ideas: seq<Idea>, id: int, newStatus: string): (r: seq<Idea>)
    ensures |r| == |ideas|
    ensures forall k :: 0 <= k < |r| ==> r[k] == (if ideas[k].id == id then ideas[k].(status := newStatus) else ideas[k])
  {
    UpdateWhere(ideas, id, (i: Idea) => i.(status := newStatus))
  }

  /** The page's state for status changes and deletion. */
  datatype Page = Page(ideas: seq<Idea>, updatingId: Option<int>, refreshes: nat, toDelete: Option<Idea>)

  /** How the status request ended: a 2xx answer, another answer, or an
      exception (which only alerts). */
  datatype Outcome = Accepted | Refused | Threw

  /** `handleStatusChange`: the request sends one update; an accepted one is
      patched in, a refused one asks for a fresh list, an exception changes
      nothing; the busy marker is cleared either way. Returns the request's
      `updates`. */
  function StatusChange(p: Page, id: int, newStatus: string, outcome: Outcome): (r: (Page, seq<StatusUpdates.Entry>))
    ensures r.1 == [StatusUpdates.Entry(Some(id), Some(newStatus))]
    ensures r.0.updatingId.None? && r.0.toDelete == p.toDelete
    ensures outcome == Accepted ==> r.0.ideas == PatchStatus(p.ideas, id, newStatus) && r.0.refreshes == p.refreshes
    ensures outcome == Refused ==> r.0.ideas == p.ideas && r.0.refreshes == p.refreshes + 1
    ensures outcome == Threw ==> r.0 == p.(updatingId := None)
  {
    var updates := [StatusUpdates.Entry(Some(id), Some(newStatus))];
    match outcome
    case Accepted => (p.(ideas := PatchStatus(p.ideas, id, newStatus), updatingId := None), updates)
    case Refused => (p.(updatingId := None, refreshes := p.refreshes + 1), updates)
    case Threw => (p.(updatingId := None), updates)
  }

  /** The browser's list shows the server's status for every idea the
      server knows. */
  predicate InSync(ideas: seq<Idea>, store: StatusUpdates.Store)
  {
    forall k :: 0 <= k < |ideas| && ideas[k].id in store.ideas ==> ideas[k].status == store.ideas[ideas[k].id].status
  }

  /** The local patch mirrors the server: applying the request's single
      update on the server and the patch in the browser keeps the two in
      step, for every idea the server knows. */
  lemma PatchMatchesServer(ideas: seq<Idea>, store: StatusUpdates.Store, id: int, newStatus: string)
    requires InSync(ideas, store)
    requires id != 0 && newStatus != ""
    ensures var updates := [StatusUpdates.Entry(Some(id), Some(newStatus))];
      InSync(PatchStatus(ideas, id, newStatus), StatusUpdates.ApplyBatch(store, updates))
  {
    var e := StatusUpdates.Entry(Some(id), Some(newStatus));
    var out := StatusUpdates.ApplyBatch(store, [e]);
    assert out == StatusUpdates.ApplyEntry(store, e) by {
      assert [e][1..] == [];
      assert out == StatusUpdates.ApplyBatch(StatusUpdates.ApplyEntry(store, e), []);
    }
    assert StatusUpdates.Usable(e);
  }

  /** Patching twice with the same status is patching once; other ideas
      keep everything. */
  lemma PatchIdempotent(ideas: seq<Idea>, id: int, newStatus: string)
    ensures PatchStatus(PatchStatus(ideas, id, newStatus), id, newStatus) == PatchStatus(ideas, id, newStatus)
  {
  }

  // ---------------------------------------------------------------------
  // deletion

  /** `confirmDelete`: without a target nothing happens; an accepted delete
      clears the target and asks for a fresh list; a refused one keeps the
      dialog open. Returns the id sent in the `DELETE`, if any. */
  function ConfirmDelete(p: Page, ok: bool): (r: (Page, Option<int>))
    ensures p.toDelete.None? ==> r == (p, None)
    ensures p.toDelete.Some? ==> r.1 == Some(p.toDelete.value.id) && r.0.ideas == p.ideas
    ensures p.toDelete.Some? && ok ==> r.0.toDelete.None? && r.0.refreshes == p.refreshes + 1
    ensures p.toDelete.Some? && !ok ==> r.0 == p
  {
    if p.toDelete.None? then (p, None)
    else if ok then (p.(toDelete := None, refreshes := p.refreshes + 1), Some(p.toDelete.value.id))
    else (p, Some(p.toDelete.value.id))
  }

  /** `handleDeleteIdea` (the row's delete button) then `confirmDelete`:
      exactly one `DELETE`, for the idea whose button was pressed; once it
      is accepted a second confirm sends nothing, while after a refusal the
      same idea can be confirmed again; the list of ideas is never changed
      locally. */
  lemma DeleteSendsOnce(p: Page, idea: Idea, ok: bool, ok': bool)
    ensures var (p1, sent) := ConfirmDelete(p.(toDelete := Some(idea)), ok);
      && sent == Some(idea.id)
      && p1.ideas == p.ideas
      && ConfirmDelete(p1, ok').1 == (if ok then None else Some(idea.id))
  {
  }

  // ---------------------------------------------------------------------
  // option lists from the form configuration

  /** The department chart's categories: the options of the
      "departmentsImpacted" field, or none. */
  function DepartmentOptions(c: FormConfig.Config): (r: seq<string>)
    ensures FormConfig.FindByName(c, "departmentsImpacted").None? ==> r == []
    ensures FormConfig.FindByName(c, "departmentsImpacted").Some? ==>
      r == c[FormConfig.FindByName(c, "departmentsImpacted").value].options.GetOr([])
  {
    match FormConfig.FindByName(c, "departmentsImpacted")
    case None => []
    case Some(k) => c[k].options.GetOr([])
  }

  /** The company filter's choices: the options of the "company" field;
      `None` is the `undefined` of a company field without options, on which
      the filter's `map` throws. */
  function CompanyOptions(c: FormConfig.Config): (r: Option<seq<string>>)
    ensures FormConfig.FindByName(c, "company").None? ==> r == Some([])
    ensures FormConfig.FindByName(c, "company").Some? ==>
      r == c[FormConfig.FindByName(c, "company").value].options
  {
    match FormConfig.FindByName(c, "company")
    case None => Some([])
    case Some(k) => c[k].options
  }

  /** With the default form the department chart and the company filter
      offer the default form's choices. */
  lemma DefaultOptions()
    ensures DepartmentOptions(FormConfig.Default) == FormConfig.Default[4].options.value
    ensures CompanyOptions(FormConfig.Default) == FormConfig.Default[1].options
  {
    FormConfig.DefaultShape();
    FormConfig.FindFirst(FormConfig.Default, "departmentsImpacted", 4);
    FormConfig.FindFirst(FormConfig.Default, "company", 1);
  }

  // ---------------------------------------------------------------------
  // chart selection

  /** The keys of `chartOptions`, in order. */
  const ChartKeys: seq<string> := ["status", "company", "category", "department"]

  /** The charts shown when the page opens. */
  const InitialCharts: seq<string> := ["status", "company"]

  /** Whatever the admin toggles in the chart selector, the selection holds
      only chart keys and names each at most once. */
  lemma {:induction false} ChartsStayValid(toggles: seq<string>)
    requires forall k :: 0 <= k < |toggles| ==> toggles[k] in ChartKeys
    ensures var sel := ToggleAll(InitialCharts, toggles);
      Seqs.NoDuplicates(sel) && forall x :: x in sel ==> x in ChartKeys
  {
    if |toggles| > 0 {
      var front := toggles[..|toggles| - 1];
      ChartsStayValid(front);
      MultiSelect.ToggleKeepsDistinct(ToggleAll(InitialCharts, front), toggles[|toggles| - 1]);
    }
  }

  /** The selection after a series of clicks on the selector's entries. */
  function ToggleAll(selected: seq<string>, toggles: seq<string>): (r: seq<string>)
    ensures forall x :: x !in toggles ==> (x in r <==> x in selected)
  {
    if |toggles| == 0 then selected
    else MultiSelect.Toggle(ToggleAll(selected, toggles[..|toggles| - 1]), toggles[|toggles| - 1])
  }
}
