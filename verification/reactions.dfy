/** The browser side of a like/dislike click (`handleReaction` in
    OrganizationIdeas.js): the optimistic step applied to the local list before
    the request, and the reconciliation once the server has answered. */
module Reactions {
  import opened Wrappers
  import opened Ideas

  /** 1 when the reaction slot holds `kind`, else 0. */
  function Holds(r: Option<Reaction>, kind: Reaction): int
  {
    if r == Some(kind) then 1 else 0
  }

  function Opposite(kind: Reaction): Reaction
  {
    match kind
    case Like => Dislike
    case Dislike => Like
  }

  /** The optimistic transition for the clicked idea: clicking the current
      reaction clears it, any other click sets it; each counter moves by the
      change in whether the user's reaction is of its kind. */
  function ReactLocally(idea: Idea, kind: Reaction): (out: Idea)
    ensures out.userReaction == (if idea.userReaction == Some(kind) then None else Some(kind))
    ensures OrZero(out.likes)
         == OrZero(idea.likes) - Holds(idea.userReaction, Like) + Holds(out.userReaction, Like)
    ensures OrZero(out.dislikes)
         == OrZero(idea.dislikes) - Holds(idea.userReaction, Dislike) + Holds(out.userReaction, Dislike)
    ensures out.likes.Some? && out.dislikes.Some?
    ensures out.netScore == ComputedNetScore(out)
    ensures out.(likes := idea.likes, dislikes := idea.dislikes,
                 userReaction := idea.userReaction, netScore := idea.netScore) == idea
  {
    var current := idea.userReaction;
    var likes := OrZero(idea.likes);
    var dislikes := OrZero(idea.dislikes);
    match kind
    case Like =>
      if current == Some(Like) then
        idea.(userReaction := None, likes := Some(likes - 1), dislikes := Some(dislikes),
              netScore := likes - 1 - dislikes)
      else
        var newDislikes := if current == Some(Dislike) then dislikes - 1 else dislikes;
        idea.(userReaction := Some(Like), likes := Some(likes + 1), dislikes := Some(newDislikes),
              netScore := likes + 1 - newDislikes)
    case Dislike =>
      if current == Some(Dislike) then
        idea.(userReaction := None, likes := Some(likes), dislikes := Some(dislikes - 1),
              netScore := likes - (dislikes - 1))
      else
        var newLikes := if current == Some(Like) then likes - 1 else likes;
        idea.(userReaction := Some(Dislike), likes := Some(newLikes), dislikes := Some(dislikes + 1),
              netScore := newLikes - (dislikes + 1))
  }

  /** The state table of the click, case by case. */
  lemma ReactLocallyTable(idea: Idea, kind: Reaction)
    ensures var out := ReactLocally(idea, kind);
      var l, d := OrZero(idea.likes), OrZero(idea.dislikes);
      && (idea.userReaction == None && kind == Like ==>
            OrZero(out.likes) == l + 1 && OrZero(out.dislikes) == d && out.userReaction == Some(Like))
      && (idea.userReaction == Some(Dislike) && kind == Like ==>
            OrZero(out.likes) == l + 1 && OrZero(out.dislikes) == d - 1 && out.userReaction == Some(Like))
      && (idea.userReaction == Some(Like) && kind == Like ==>
            OrZero(out.likes) == l - 1 && OrZero(out.dislikes) == d && out.userReaction == None)
      && (idea.userReaction == None && kind == Dislike ==>
            OrZero(out.likes) == l && OrZero(out.dislikes) == d + 1 && out.userReaction == Some(Dislike))
      && (idea.userReaction == Some(Like) && kind == Dislike ==>
            OrZero(out.likes) == l - 1 && OrZero(out.dislikes) == d + 1 && out.userReaction == Some(Dislike))
      && (idea.userReaction == Some(Dislike) && kind == Dislike ==>
            OrZero(out.likes) == l && OrZero(out.dislikes) == d - 1 && out.userReaction == None)
  {
  }

  /** Clicking the same button twice is undone, unless the user started from
      the opposite reaction (then the second click clears the new one and the
      old one stays gone). */
  lemma ReactTwice(idea: Idea, kind: Reaction)
    ensures var twice := ReactLocally(ReactLocally(idea, kind), kind);
      idea.userReaction != Some(Opposite(kind)) ==>
        && twice.userReaction == idea.userReaction
        && OrZero(twice.likes) == OrZero(idea.likes)
        && OrZero(twice.dislikes) == OrZero(idea.dislikes)
        && twice.netScore == ComputedNetScore(idea)
    ensures var twice := ReactLocally(ReactLocally(idea, kind), kind);
      idea.userReaction == Some(Opposite(kind)) ==>
        && twice.userReaction == None
        && OrZero(twice.likes) == OrZero(idea.likes) - Holds(idea.userReaction, Like)
        && OrZero(twice.dislikes) == OrZero(idea.dislikes) - Holds(idea.userReaction, Dislike)
  {
    match idea.userReaction
    case None =>
    case Some(r) => assert r == kind || r == Opposite(kind);
  }

  /** The optimistic list update: only ideas with the clicked id change. */
  function ReactInList(ideas: seq<Idea>, id: int, kind: Reaction): (r: seq<Idea>)
    ensures |r| == |ideas|
    ensures forall i :: 0 <= i < |r| && ideas[i].id != id ==> r[i] == ideas[i]
    ensures forall i :: 0 <= i < |r| && ideas[i].id == id ==>
      r[i] == ReactLocally(ideas[i], kind) && r[i].netScore == ComputedNetScore(r[i])
  {
    UpdateWhere(ideas, id, idea => ReactLocally(idea, kind))
  }

  /** The JSON body of a 200 answer to `POST /ideas/{id}/react`. */
  datatype ReactReply = ReactReply(
    message: string, likes: int, dislikes: int, points: int, userReaction: Option<Reaction>)

  /** `{ ...idea, ...data, netScore }`: the server's counts, points and reaction
      replace the local ones; every other field is kept. */
  function MergeReply(idea: Idea, reply: ReactReply): (out: Idea)
    ensures out.likes == Some(reply.likes) && out.dislikes == Some(reply.dislikes)
    ensures out.points == reply.points && out.userReaction == reply.userReaction
    ensures out.netScore == reply.likes - reply.dislikes
    ensures out.(likes := idea.likes, dislikes := idea.dislikes, points := idea.points,
                 userReaction := idea.userReaction, netScore := idea.netScore) == idea
  {
    idea.(likes := Some(reply.likes), dislikes := Some(reply.dislikes), points := reply.points,
          userReaction := reply.userReaction, netScore := reply.likes - reply.dislikes)
  }

  /** The server wins: whatever the optimistic step guessed is overwritten. */
  lemma ServerWins(idea: Idea, kind: Reaction, reply: ReactReply)
    ensures MergeReply(ReactLocally(idea, kind), reply) == MergeReply(idea, reply)
  {
  }

  /** What the request produced: a 200 with a body, or a non-OK status / a
      thrown error. */
  datatype ReactOutcome = Replied(reply: ReactReply) | Failed

  /** The list after the response: a reply is merged into the idea with that
      id; a failure triggers `fetchIdeas`, whose result (if it succeeded)
      replaces the whole list. */
  function AfterResponse(optimistic: seq<Idea>, id: int, outcome: ReactOutcome,
                         refetched: Option<seq<Idea>>): (r: seq<Idea>)
    ensures outcome.Replied? ==>
      && |r| == |optimistic|
      && (forall i :: 0 <= i < |r| && optimistic[i].id != id ==> r[i] == optimistic[i])
      && (forall i :: 0 <= i < |r| && optimistic[i].id == id ==>
            r[i] == MergeReply(optimistic[i], outcome.reply))
    ensures outcome.Failed? && refetched.Some? ==> r == refetched.value
    ensures outcome.Failed? && refetched.None? ==> r == optimistic
  {
    match outcome
    case Replied(reply) => UpdateWhere(optimistic, id, idea => MergeReply(idea, reply))
    case Failed => refetched.GetOr(optimistic)
  }

  /** The whole click: optimistic step, then the response. After a reply the
      clicked idea carries exactly the server's counts and reaction, whatever
      it held before the click. */
  lemma HandleReactionReplied(ideas: seq<Idea>, id: int, kind: Reaction, reply: ReactReply, i: int)
    requires 0 <= i < |ideas| && ideas[i].id == id
    ensures var r := AfterResponse(ReactInList(ideas, id, kind), id, Replied(reply), None);
      r[i] == MergeReply(ideas[i], reply)
  {
    ServerWins(ideas[i], kind, reply);
  }
}
