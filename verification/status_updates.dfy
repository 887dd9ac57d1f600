/** `POST /api/ideas/update-status` (`update_idea_status` in app.py): a batch
    of `{id, status}` entries applied in order. Entries without an id or a
    status, or naming an unknown idea, are skipped; a status that differs from
    the current one is written and the owner is notified. */
module StatusUpdates {
  import opened Wrappers
  import opened ServerDb

  /** One element of `updates`: a JSON `id` and `status` that may be absent
      (or `null`). */
  datatype Entry = Entry(id: Option<int>, status: Option<string>)

  /** The `ideas` and `notifications` tables as this endpoint sees them. */
  datatype Store = Store(ideas: map<int, IdeaRow>, notifications: seq<Notification>)

  /** `not idea_id or not new_status` is false: Python treats a missing value,
      the id 0 and the empty status as falsy. */
  predicate Usable(e: Entry)
  {
    e.id.Some? && e.id.value != 0 && e.status.Some? && e.status.value != ""
  }

  /** One loop iteration. */
  function ApplyEntry(s: Store, e: Entry): (out: Store)
    ensures out.ideas.Keys == s.ideas.Keys
    ensures forall i :: i in s.ideas ==>
      out.ideas[i].ownerId == s.ideas[i].ownerId && out.ideas[i].title == s.ideas[i].title
    ensures !Usable(e) || e.id.value !in s.ideas || s.ideas[e.id.value].status == e.status.value
      ==> out == s
    ensures Usable(e) && e.id.value in s.ideas && s.ideas[e.id.value].status != e.status.value ==>
      var row := s.ideas[e.id.value];
      && out.ideas == s.ideas[e.id.value := row.(status := e.status.value)]
      && out.notifications == s.notifications
           + [Notification(row.ownerId, e.id.value, StatusMessage(row.title, e.status.value))]
  {
    if !Usable(e) then s
    else
      var id, status := e.id.value, e.status.value;
      if id !in s.ideas then s
      else
        var row := s.ideas[id];
        if status == row.status then s
        else
          Store(s.ideas[id := row.(status := status)],
                s.notifications + [Notification(row.ownerId, id, StatusMessage(row.title, status))])
  }

  /** The whole batch, in order. */
  function ApplyBatch(s: Store, updates: seq<Entry>): (out: Store)
    ensures out.ideas.Keys == s.ideas.Keys
    ensures |s.notifications| <= |out.notifications|
    ensures out.notifications[..|s.notifications|] == s.notifications
    decreases |updates|
  {
    if |updates| == 0 then s else ApplyBatch(ApplyEntry(s, updates[0]), updates[1..])
  }

  /** The status the last usable entry for `id` asks for, if any. */
  function LastStatusFor(updates: seq<Entry>, id: int): Option<string>
  {
    if |updates| == 0 then None
    else
      var e := updates[|updates| - 1];
      if Usable(e) && e.id.value == id then Some(e.status.value)
      else LastStatusFor(updates[..|updates| - 1], id)
  }

  /** The last word wins: after the batch, a known idea carries the status of
      the last usable entry naming it, or its old status if none does; its
      owner and title never change. */
  lemma {:induction false} LastEntryWins(s: Store, updates: seq<Entry>, id: int)
    requires id in s.ideas
    ensures var out := ApplyBatch(s, updates);
      && out.ideas[id].status == LastStatusFor(updates, id).GetOr(s.ideas[id].status)
      && out.ideas[id].ownerId == s.ideas[id].ownerId
      && out.ideas[id].title == s.ideas[id].title
    decreases |updates|
  {
    if |updates| > 0 {
      var init, last := updates[..|updates| - 1], updates[|updates| - 1];
      assert updates == init + [last];
      BatchSnoc(s, init, last);
      LastEntryWins(s, init, id);
    }
  }

  /** Applying a batch is applying all but its last entry, then the last one. */
  lemma {:induction false} BatchSnoc(s: Store, init: seq<Entry>, last: Entry)
    ensures ApplyBatch(s, init + [last]) == ApplyEntry(ApplyBatch(s, init), last)
    decreases |init|
  {
    if |init| == 0 {
      assert init + [last] == [last];
    } else {
      assert (init + [last])[1..] == init[1..] + [last];
      BatchSnoc(ApplyEntry(s, init[0]), init[1..], last);
    }
  }

  /** An entry that agrees with the stored status (or is skipped) is inert. */
  predicate Inert(s: Store, e: Entry)
  {
    !Usable(e) || e.id.value !in s.ideas || s.ideas[e.id.value].status == e.status.value
  }

  /** A batch that only restates current statuses changes nothing and
      notifies nobody. */
  lemma {:induction false} InertBatch(s: Store, updates: seq<Entry>)
    requires forall k :: 0 <= k < |updates| ==> Inert(s, updates[k])
    ensures ApplyBatch(s, updates) == s
    decreases |updates|
  {
    if |updates| > 0 {
      assert Inert(s, updates[0]);
      assert forall k :: 0 <= k < |updates[1..]| ==> updates[1..][k] == updates[k + 1];
      InertBatch(s, updates[1..]);
    }
  }

  /** Every notification the batch adds announces a real change: applying a
      single entry notifies exactly when the stored status changes. */
  lemma NotifiesOnlyOnChange(s: Store, e: Entry)
    ensures var out := ApplyEntry(s, e);
      |out.notifications| == |s.notifications| + (if out.ideas == s.ideas then 0 else 1)
  {
    if Usable(e) && e.id.value in s.ideas && s.ideas[e.id.value].status != e.status.value {
      var out := ApplyEntry(s, e);
      assert out.ideas[e.id.value].status != s.ideas[e.id.value].status;
    }
  }

  /** At most one usable entry per idea. */
  predicate OnePerIdea(updates: seq<Entry>)
  {
    forall i, j :: 0 <= i < j < |updates| && Usable(updates[i]) && Usable(updates[j]) ==>
      updates[i].id.value != updates[j].id.value
  }

  lemma {:induction false} LastStatusOfOnly(updates: seq<Entry>, k: int)
    requires OnePerIdea(updates) && 0 <= k < |updates| && Usable(updates[k])
    ensures LastStatusFor(updates, updates[k].id.value) == Some(updates[k].status.value)
    decreases |updates|
  {
    if k < |updates| - 1 {
      var init := updates[..|updates| - 1];
      assert init[k] == updates[k];
      LastStatusOfOnly(init, k);
    }
  }

  /** Saving the same batch twice (one entry per idea) is harmless: the second
      run changes nothing and sends no further notification. */
  lemma ReplayIsInert(s: Store, updates: seq<Entry>)
    requires OnePerIdea(updates)
    ensures var once := ApplyBatch(s, updates);
      ApplyBatch(once, updates) == once
  {
    var once := ApplyBatch(s, updates);
    forall k | 0 <= k < |updates|
      ensures Inert(once, updates[k])
    {
      var e := updates[k];
      if Usable(e) && e.id.value in once.ideas {
        LastEntryWins(s, updates, e.id.value);
        LastStatusOfOnly(updates, k);
      }
    }
    InertBatch(once, updates);
  }
}
