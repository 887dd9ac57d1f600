/** The two views of the organisation's ideas (`sortedIdeas` in
    OrganizationIdeas.js): "top" ranks by net score and keeps ten, "all" (any
    other filter value) orders by submission date, newest first. */
module Leaderboard {
  import opened Ideas
  import Seqs

  /** How many ideas the "top" view keeps. */
  const TopLimit: nat := 10

  function NetKey(idea: Idea): int { idea.netScore }
  function DateKey(idea: Idea): int { idea.submissionDate }

  function Min(a: nat, b: nat): nat { if a <= b then a else b }

  /** The copy with `netScore` recomputed from the counts; the input list
      itself is never touched. */
  function WithNetScores(ideas: seq<Idea>): (r: seq<Idea>)
    ensures |r| == |ideas|
    ensures forall i :: 0 <= i < |r| ==>
      r[i].netScore == ComputedNetScore(ideas[i]) && r[i].(netScore := ideas[i].netScore) == ideas[i]
  {
    seq(|ideas|, i requires 0 <= i < |ideas| => ideas[i].(netScore := ComputedNetScore(ideas[i])))
  }

  /** The "top" view: the ten best by net score, best first. Nothing left out
      scores higher than anything kept. */
  function TopView(ideas: seq<Idea>): (r: seq<Idea>)
    ensures |r| == Min(TopLimit, |ideas|)
    ensures Seqs.SortedDesc(r, NetKey)
    ensures multiset(r) <= multiset(WithNetScores(ideas))
    ensures forall y, x :: y in multiset(WithNetScores(ideas)) - multiset(r) && x in r ==>
      y.netScore <= x.netScore
  {
    var all := WithNetScores(ideas);
    var sorted := Seqs.SortDesc(all, NetKey);
    var n := Min(TopLimit, |ideas|);
    TopPrefix(all, sorted, n);
    sorted[..n]
  }

  /** The facts about the kept prefix of the ranking, in terms of the list ranked. */
  lemma TopPrefix(all: seq<Idea>, sorted: seq<Idea>, n: nat)
    requires Seqs.SortedDesc(sorted, NetKey) && multiset(sorted) == multiset(all) && n <= |sorted|
    ensures Seqs.SortedDesc(sorted[..n], NetKey)
    ensures multiset(sorted[..n]) <= multiset(all)
    ensures forall y, x :: y in multiset(all) - multiset(sorted[..n]) && x in sorted[..n] ==>
      y.netScore <= x.netScore
  {
    assert Seqs.SortedDesc(sorted[..n], NetKey) by {
      SortedPrefix(sorted, NetKey, n);
    }
    assert multiset(sorted[..n]) <= multiset(sorted) by {
      assert sorted == sorted[..n] + sorted[n..];
    }
    assert forall y, x :: y in multiset(sorted) - multiset(sorted[..n]) && x in sorted[..n] ==>
      NetKey(y) <= NetKey(x) by {
      PrefixDominates(sorted, NetKey, n);
    }
  }

  lemma SortedPrefix(s: seq<Idea>, key: Idea -> int, n: nat)
    requires Seqs.SortedDesc(s, key) && n <= |s|
    ensures Seqs.SortedDesc(s[..n], key)
  {
  }

  /** The "all" view: every idea, newest first. */
  function AllView(ideas: seq<Idea>): (r: seq<Idea>)
    ensures |r| == |ideas|
    ensures Seqs.SortedDesc(r, DateKey)
    ensures multiset(r) == multiset(WithNetScores(ideas))
  {
    Seqs.SortDesc(WithNetScores(ideas), DateKey)
  }

  /** `sortedIdeas`: the filter value "top" selects the ranking, anything else
      the chronological list. */
  function SortedIdeas(ideas: seq<Idea>, filter: string): (r: seq<Idea>)
    ensures filter == "top" ==> r == TopView(ideas)
    ensures filter != "top" ==> r == AllView(ideas)
  {
    if filter == "top" then TopView(ideas) else AllView(ideas)
  }

  /** In a non-increasing sequence the first `n` elements outrank the rest,
      and together they are the whole sequence. */
  lemma PrefixDominates(s: seq<Idea>, key: Idea -> int, n: nat)
    requires Seqs.SortedDesc(s, key) && n <= |s|
    ensures multiset(s) - multiset(s[..n]) == multiset(s[n..])
    ensures forall y, x :: y in multiset(s) - multiset(s[..n]) && x in s[..n] ==> key(y) <= key(x)
  {
    assert s == s[..n] + s[n..];
    forall y, x | y in multiset(s) - multiset(s[..n]) && x in s[..n]
      ensures key(y) <= key(x)
    {
      var j :| 0 <= j < |s[n..]| && s[n..][j] == y;
      var i :| 0 <= i < n && s[..n][i] == x;
      assert s[i] == x && s[n + j] == y;
    }
  }

  /** Ties keep the order in which the server listed them: the "all" view
      never reorders ideas submitted at the same instant. */
  lemma AllViewKeepsTies(ideas: seq<Idea>, date: int)
    ensures Seqs.WithKey(AllView(ideas), DateKey, date)
         == Seqs.WithKey(WithNetScores(ideas), DateKey, date)
  {
    Seqs.SortDescStable(WithNetScores(ideas), DateKey, date);
  }

  /** Within one score the ranking keeps the server's order, and the "top"
      view shows the leading part of that order: its ideas of a given score
      are the first ones of that score the server sent. */
  lemma TopViewIsStableRanking(ideas: seq<Idea>, score: int)
    ensures var ranking := Seqs.SortDesc(WithNetScores(ideas), NetKey);
      && Seqs.WithKey(ranking, NetKey, score) == Seqs.WithKey(WithNetScores(ideas), NetKey, score)
      && Seqs.WithKey(TopView(ideas), NetKey, score) <= Seqs.WithKey(WithNetScores(ideas), NetKey, score)
  {
    var ranking := Seqs.SortDesc(WithNetScores(ideas), NetKey);
    var n := Min(TopLimit, |ideas|);
    Seqs.SortDescStable(WithNetScores(ideas), NetKey, score);
    assert ranking == ranking[..n] + ranking[n..];
    Seqs.WithKeyAppend(ranking[..n], ranking[n..], NetKey, score);
    assert TopView(ideas) == ranking[..n];
  }
}
