/** The admin dashboard's frequency tables (AdminDashboard.js): ideas counted
    by status, by company, by category and by department impacted, and the
    KPI cards above them. A JavaScript object used as a counter is modelled
    as a list of entries in insertion order. */
module Aggregation {
  import opened Ideas
  import Seqs

  /** One key of a counter object and its count. */
  datatype Entry = Entry(key: string, count: nat)

  /** `Object.keys(counts)`, in insertion order. */
  function Keys(t: seq<Entry>): seq<string>
  {
    if |t| == 0 then [] else [t[0].key] + Keys(t[1..])
  }

  predicate Distinct(ks: seq<string>)
  {
    forall i, j :: 0 <= i < j < |ks| ==> ks[i] != ks[j]
  }

  /** `counts[x] || 0`. */
  function Get(t: seq<Entry>, x: string): nat
  {
    if |t| == 0 then 0 else if t[0].key == x then t[0].count else Get(t[1..], x)
  }

  /** The sum of `Object.values(counts)`. */
  function Total(t: seq<Entry>): nat
  {
    if |t| == 0 then 0 else t[0].count + Total(t[1..])
  }

  /** Appending a fresh entry adds its key at the end, its count to the
      total, and nothing to any other key. */
  lemma {:induction false} AppendEntry(t: seq<Entry>, e: Entry, x: string)
    ensures Keys(t + [e]) == Keys(t) + [e.key]
    ensures Total(t + [e]) == Total(t) + e.count
    ensures Get(t + [e], x) == if x in Keys(t) then Get(t, x) else if x == e.key then e.count else 0
  {
    if |t| == 0 {
      assert t + [e] == [e];
    } else {
      assert (t + [e])[1..] == t[1..] + [e];
      AppendEntry(t[1..], e, x);
    }
  }

  /** `acc[k] = (acc[k] || 0) + 1`: a known key's count goes up by one, a new
      key is added at the end with count 1. */
  function Bump(t: seq<Entry>, k: string): (r: seq<Entry>)
    requires Distinct(Keys(t))
    ensures Distinct(Keys(r))
    ensures Keys(r) == if k in Keys(t) then Keys(t) else Keys(t) + [k]
    ensures Get(r, k) == Get(t, k) + 1
    ensures forall x :: x != k ==> Get(r, x) == Get(t, x)
    ensures Total(r) == Total(t) + 1
  {
    if |t| == 0 then [Entry(k, 1)]
    else
      DistinctSplit(Keys(t));
      if t[0].key == k then
        var r := [Entry(k, t[0].count + 1)] + t[1..];
        assert r[1..] == t[1..];
        r
      else
        var rest := Bump(t[1..], k);
        var r := [t[0]] + rest;
        assert r[1..] == rest;
        assert Keys(r) == [t[0].key] + Keys(rest);
        DistinctCons(t[0].key, Keys(rest));
        r
  }

  /** A distinct list is its head, absent from the rest, before a distinct rest. */
  lemma DistinctSplit(ks: seq<string>)
    requires |ks| > 0 && Distinct(ks)
    ensures Distinct(ks[1..]) && ks[0] !in ks[1..]
  {
  }

  lemma DistinctCons(x: string, ks: seq<string>)
    requires Distinct(ks) && x !in ks
    ensures Distinct([x] + ks)
  {
    var r := [x] + ks;
    forall i, j | 0 <= i < j < |r| ensures r[i] != r[j] {
      assert r[j] == ks[j - 1];
      if i > 0 {
        assert r[i] == ks[i - 1];
      }
    }
  }

  /** The reference count: elements kept by `keep` whose key is `x`. */
  function Matching<T>(xs: seq<T>, key: T -> string, keep: T -> bool, x: string): nat
  {
    if |xs| == 0 then 0 else (if keep(xs[0]) && key(xs[0]) == x then 1 else 0) + Matching(xs[1..], key, keep, x)
  }

  lemma {:induction false} MatchingAppend<T>(xs: seq<T>, y: T, key: T -> string, keep: T -> bool, x: string)
    ensures Matching(xs + [y], key, keep, x)
         == Matching(xs, key, keep, x) + (if keep(y) && key(y) == x then 1 else 0)
    ensures Seqs.CountWhere(xs + [y], keep) == Seqs.CountWhere(xs, keep) + (if keep(y) then 1 else 0)
  {
    if |xs| == 0 {
      assert xs + [y] == [y];
    } else {
      assert (xs + [y])[1..] == xs[1..] + [y];
      MatchingAppend(xs[1..], y, key, keep, x);
    }
  }

  /** `xs.reduce((acc, i) => { if (keep(i)) acc[key(i)] = (acc[key(i)] || 0) + 1; return acc }, {})`:
      the keys are exactly the keys that occur, each counted as often as it
      occurs, and the counts add up to the number of kept elements. */
  function Tabulate<T>(xs: seq<T>, key: T -> string, keep: T -> bool): (r: seq<Entry>)
    ensures Distinct(Keys(r))
    ensures forall x :: x in Keys(r) <==> Matching(xs, key, keep, x) > 0
    ensures forall x :: Get(r, x) == Matching(xs, key, keep, x)
    ensures Total(r) == Seqs.CountWhere(xs, keep)
  {
    if |xs| == 0 then []
    else
      var init := xs[..|xs| - 1];
      var y := xs[|xs| - 1];
      assert xs == init + [y];
      var t := Tabulate(init, key, keep);
      forall x ensures Matching(xs, key, keep, x)
                    == Matching(init, key, keep, x) + (if keep(y) && key(y) == x then 1 else 0)
      {
        MatchingAppend(init, y, key, keep, x);
      }
      MatchingAppend(init, y, key, keep, "");
      if keep(y) then Bump(t, key(y)) else t
  }

  function Always<T>(x: T): bool { true }

  lemma CountAlways<T>(xs: seq<T>)
    ensures Seqs.CountWhere(xs, Always) == |xs|
  {
  }

  function StatusOf(i: Idea): string { i.status }
  function CompanyOf(i: Idea): string { i.company }
  function CategoryOf(i: Idea): string { i.ideaCategory }

  /** `if (idea.ideaCategory)`: an empty category is not counted. */
  predicate HasCategory(i: Idea) { i.ideaCategory != "" }

  /** `statusCounts`: one key per status that occurs, counting its ideas;
      the counts add up to the number of ideas. */
  function StatusCounts(ideas: seq<Idea>): (r: seq<Entry>)
    ensures Distinct(Keys(r))
    ensures forall s :: Get(r, s) == Matching(ideas, StatusOf, Always, s)
    ensures forall s :: s in Keys(r) <==> Get(r, s) > 0
    ensures Total(r) == |ideas|
  {
    CountAlways(ideas);
    Tabulate(ideas, StatusOf, Always)
  }

  /** `companyCounts`, the same table over companies. */
  function CompanyCounts(ideas: seq<Idea>): (r: seq<Entry>)
    ensures Distinct(Keys(r))
    ensures forall c :: Get(r, c) == Matching(ideas, CompanyOf, Always, c)
    ensures forall c :: c in Keys(r) <==> Get(r, c) > 0
    ensures Total(r) == |ideas|
  {
    CountAlways(ideas);
    Tabulate(ideas, CompanyOf, Always)
  }

  /** `categoryCounts`: ideas without a category are skipped, so "" is never
      a key and the counts add up to the number of categorised ideas. */
  function CategoryCounts(ideas: seq<Idea>): (r: seq<Entry>)
    ensures Distinct(Keys(r))
    ensures "" !in Keys(r)
    ensures forall c :: c != "" ==> Get(r, c) == Matching(ideas, CategoryOf, Always, c)
    ensures forall c :: c in Keys(r) <==> Get(r, c) > 0
    ensures Total(r) == Seqs.CountWhere(ideas, HasCategory)
  {
    var r := Tabulate(ideas, CategoryOf, HasCategory);
    forall c ensures Matching(ideas, CategoryOf, HasCategory, c)
                  == (if c == "" then 0 else Matching(ideas, CategoryOf, Always, c))
    {
      SkipEmptyCategory(ideas, c);
    }
    r
  }

  lemma {:induction false} SkipEmptyCategory(ideas: seq<Idea>, c: string)
    ensures Matching(ideas, CategoryOf, HasCategory, c)
         == if c == "" then 0 else Matching(ideas, CategoryOf, Always, c)
  {
    if |ideas| > 0 {
      SkipEmptyCategory(ideas[1..], c);
    }
  }

  // ---------------------------------------------------------------------
  // departments impacted

  /** `departmentOptions.reduce((acc, dept) => ({ ...acc, [dept]: 0 }), {})`:
      one zero entry per distinct option, in order of first appearance. */
  function Zeroed(options: seq<string>): (r: seq<Entry>)
    ensures Distinct(Keys(r))
    ensures forall x :: x in Keys(r) <==> x in options
    ensures forall x :: Get(r, x) == 0
    ensures Total(r) == 0
  {
    if |options| == 0 then []
    else
      var init := options[..|options| - 1];
      var last := options[|options| - 1];
      assert options == init + [last];
      var t := Zeroed(init);
      if last in Keys(t) then t
      else
        forall x ensures Get(t + [Entry(last, 0)], x) == 0 {
          AppendEntry(t, Entry(last, 0), x);
        }
        AppendEntry(t, Entry(last, 0), last);
        t + [Entry(last, 0)]
  }

  /** `if (departmentCounts.hasOwnProperty(dept)) departmentCounts[dept]++`. */
  function Inc(t: seq<Entry>, k: string): (r: seq<Entry>)
    ensures Keys(r) == Keys(t)
    ensures Get(r, k) == Get(t, k) + (if k in Keys(t) then 1 else 0)
    ensures forall x :: x != k ==> Get(r, x) == Get(t, x)
  {
    if |t| == 0 then t
    else
      assert Keys(t)[1..] == Keys(t[1..]);
      if t[0].key == k then
        var r := [Entry(k, t[0].count + 1)] + t[1..];
        assert r[1..] == t[1..];
        r
      else
        var rest := Inc(t[1..], k);
        var r := [t[0]] + rest;
        assert r[1..] == rest;
        r
  }

  /** `departments.forEach(dept => ...)` for an array value. */
  function IncAll(t: seq<Entry>, names: seq<string>): (r: seq<Entry>)
    ensures Keys(r) == Keys(t)
    ensures forall x :: Get(r, x) == Get(t, x) + (if x in Keys(t) then Seqs.Occurrences(names, x) else 0)
    decreases |names|
  {
    if |names| == 0 then t
    else IncAll(Inc(t, names[0]), names[1..])
  }

  /** How often an idea names a department: each array element counts, a
      single string counts once, anything else not at all. */
  function Mentions(d: Departments, x: string): nat
  {
    match d
    case DeptList(names) => Seqs.Occurrences(names, x)
    case DeptName(name) => if name == x then 1 else 0
    case NoDepartments => 0
  }

  function TotalMentions(ideas: seq<Idea>, x: string): nat
  {
    if |ideas| == 0 then 0 else Mentions(ideas[0].departments, x) + TotalMentions(ideas[1..], x)
  }

  /** One idea's contribution to the department counter. */
  function AddDepartments(t: seq<Entry>, d: Departments): (r: seq<Entry>)
    ensures Keys(r) == Keys(t)
    ensures forall x :: Get(r, x) == Get(t, x) + (if x in Keys(t) then Mentions(d, x) else 0)
  {
    match d
    case DeptList(names) => IncAll(t, names)
    case DeptName(name) => Inc(t, name)
    case NoDepartments => t
  }

  function AddIdeas(t: seq<Entry>, ideas: seq<Idea>): (r: seq<Entry>)
    ensures Keys(r) == Keys(t)
    ensures forall x :: Get(r, x) == Get(t, x) + (if x in Keys(t) then TotalMentions(ideas, x) else 0)
    decreases |ideas|
  {
    if |ideas| == 0 then t
    else AddIdeas(AddDepartments(t, ideas[0].departments), ideas[1..])
  }

  /** `departmentCounts`: the keys are exactly the configured options, and
      each counts the mentions of that department across the ideas; a
      department that is not an option is ignored. */
  function DepartmentCounts(ideas: seq<Idea>, options: seq<string>): (r: seq<Entry>)
    ensures Distinct(Keys(r))
    ensures forall x :: x in Keys(r) <==> x in options
    ensures forall x :: Get(r, x) == if x in options then TotalMentions(ideas, x) else 0
  {
    AddIdeas(Zeroed(options), ideas)
  }

  /** With no ideas every option is present with count 0. */
  lemma DepartmentsStartAtZero(options: seq<string>, x: string)
    requires x in options
    ensures x in Keys(DepartmentCounts([], options)) && Get(DepartmentCounts([], options), x) == 0
  {
  }

  // ---------------------------------------------------------------------
  // KPI cards

  predicate IsApproved(i: Idea) { i.status == "Approved" }
  predicate InReview(i: Idea) { i.status == "Under Review" || i.status == "Shortlisted" }

  /** Total ideas, approved ideas, and ideas under review or shortlisted. */
  datatype Kpis = Kpis(total: nat, approved: nat, inReview: nat)

  function ComputeKpis(ideas: seq<Idea>): (k: Kpis)
    ensures k.total == |ideas|
    ensures k.approved == |Seqs.Filter(ideas, IsApproved)|
    ensures k.inReview == |Seqs.Filter(ideas, InReview)|
  {
    Kpis(|ideas|, Seqs.CountWhere(ideas, IsApproved), Seqs.CountWhere(ideas, InReview))
  }

  /** The cards agree with the status chart: the approved card is the
      chart's "Approved" slice, the review card the sum of the "Under Review"
      and "Shortlisted" slices, and the total the sum of all slices. */
  lemma KpisMatchStatusChart(ideas: seq<Idea>)
    ensures var k := ComputeKpis(ideas);
      var chart := StatusCounts(ideas);
      && k.total == Total(chart)
      && k.approved == Get(chart, "Approved")
      && k.inReview == Get(chart, "Under Review") + Get(chart, "Shortlisted")
  {
    var k := ComputeKpis(ideas);
    assert k == Kpis(|ideas|, Seqs.CountWhere(ideas, IsApproved), Seqs.CountWhere(ideas, InReview));
    KpiCounts(ideas);
    StatusSlice(ideas, "Approved");
    StatusSlice(ideas, "Under Review");
    StatusSlice(ideas, "Shortlisted");
  }

  lemma StatusSlice(ideas: seq<Idea>, s: string)
    ensures Total(StatusCounts(ideas)) == |ideas|
    ensures Get(StatusCounts(ideas), s) == Matching(ideas, StatusOf, Always, s)
  {
  }

  lemma {:induction false} KpiCounts(ideas: seq<Idea>)
    ensures Seqs.CountWhere(ideas, IsApproved) == Matching(ideas, StatusOf, Always, "Approved")
    ensures Seqs.CountWhere(ideas, InReview)
         == Matching(ideas, StatusOf, Always, "Under Review") + Matching(ideas, StatusOf, Always, "Shortlisted")
  {
    if |ideas| > 0 {
      KpiCounts(ideas[1..]);
    }
  }
}
