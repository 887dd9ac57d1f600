/** The idea record as the browser holds it after `GET /ideas`, and the
    "replace the idea with this id" update that every list view applies. */
module Ideas {
  import opened Wrappers

  /** A user's vote on an idea; `user_reaction` is `Option<Reaction>` (null = no vote). */
  datatype Reaction = Like | Dislike

  /** `departmentsImpacted` as it arrives: an array, a single string, or
      anything else (null, a number). */
  datatype Departments = DeptList(names: seq<string>) | DeptName(name: string) | NoDepartments

  /** One idea. Missing `likes`/`dislikes` are `None`; an absent category is "";
      `submissionDate` is an abstract instant (larger = later). The narrative
      fields (problem statement, solution, benefits, ...) play no part in any
      rule and are not carried. */
  datatype Idea = Idea(
    id: int,
    userId: int,
    employeeName: string,
    company: string,
    ideaTitle: string,
    ideaCategory: string,
    departments: Departments,
    status: string,
    submissionDate: int,
    likes: Option<int>,
    dislikes: Option<int>,
    points: int,
    userReaction: Option<Reaction>,
    netScore: int)

  /** `n || 0`: a missing (or zero) count reads as 0. */
  function OrZero(n: Option<int>): int
  {
    n.GetOr(0)
  }

  /** `(idea.likes || 0) - (idea.dislikes || 0)`. */
  function ComputedNetScore(idea: Idea): int
  {
    OrZero(idea.likes) - OrZero(idea.dislikes)
  }

  /** `ideas.map(i => i.id === id ? f(i) : i)`. */
  function UpdateWhere(ideas: seq<Idea>, id: int, f: Idea -> Idea): (r: seq<Idea>)
    ensures |r| == |ideas|
    ensures forall i :: 0 <= i < |r| && ideas[i].id != id ==> r[i] == ideas[i]
    ensures forall i :: 0 <= i < |r| && ideas[i].id == id ==> r[i] == f(ideas[i])
  {
    seq(|ideas|, i requires 0 <= i < |ideas| => if ideas[i].id == id then f(ideas[i]) else ideas[i])
  }
}
