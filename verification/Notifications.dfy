/**
  Notifications remember a workspace by its index (src/gtk/notifications.c:98-175),
  and workspaces come, go and are reordered (src/gtk/workspace.c:4239-4293).
 */
module Notifications {
  import opened Options
  import opened Sequences

  const LIMIT: int := 50

  type WorkspaceId = nat

  /** `owner` is not in the program: it is the workspace that the index meant
      when the notification was posted, None for a negative index. */
  datatype Entry = Entry(serial: nat, workspaceIdx: int, owner: Option<WorkspaceId>)

  datatype State = State(
    workspaces: seq<WorkspaceId>,
    entries: seq<Entry>,
    toast: Option<Entry>,      // what a click on the sidebar's toast leads to
    posted: nat)               // how many notifications there have been

  function OwnerOf(workspaces: seq<WorkspaceId>, idx: int): Option<WorkspaceId> {
    if 0 <= idx < |workspaces| then Some(workspaces[idx]) else None
  }

  /** The newest entries, as many as are kept. */
  function Newest(entries: seq<Entry>): (r: seq<Entry>)
    ensures |r| <= LIMIT
  {
    if |entries| > LIMIT then entries[|entries| - LIMIT..] else entries
  }

  function Reindexed(e: Entry, removed: int): Entry {
    if e.workspaceIdx > removed then e.(workspaceIdx := e.workspaceIdx - 1) else e
  }

  /** The entries after the workspace at an index has gone. */
  function WithoutWorkspace(entries: seq<Entry>, removed: int): seq<Entry> {
    if entries == [] then []
    else if entries[0].workspaceIdx == removed then WithoutWorkspace(entries[1..], removed)
    else [Reindexed(entries[0], removed)] + WithoutWorkspace(entries[1..], removed)
  }

  function ToastWithout(toast: Option<Entry>, removed: int): Option<Entry> {
    if toast.None? || toast.value.workspaceIdx == removed then None else Some(Reindexed(toast.value, removed))
  }

  /** The list with one element moved to another index. */
  function Moved<T>(xs: seq<T>, from: nat, to: nat): (r: seq<T>)
    requires from < |xs| && to < |xs|
    ensures |r| == |xs|
  {
    var rest := xs[..from] + xs[from + 1..];
    rest[..to] + [xs[from]] + rest[to..]
  }

  datatype Step =
    | Post(idx: int)
    | ShowToast(idx: int)
    | HideToast
    | Clear
    | AppendWorkspace(id: WorkspaceId)
    | RemoveWorkspace(idx: int)

  predicate Enabled(s: State, step: Step) {
    match step
    case Post(idx) => idx < |s.workspaces|
    case ShowToast(idx) => idx < |s.workspaces|
    case HideToast => true
    case Clear => true
    case AppendWorkspace(id) => id !in s.workspaces
    case RemoveWorkspace(idx) => 0 <= idx < |s.workspaces|
  }

  function Take(s: State, step: Step): State
    requires Enabled(s, step)
  {
    match step
    case Post(idx) =>
      s.(entries := Newest(s.entries + [Entry(s.posted, idx, OwnerOf(s.workspaces, idx))]), posted := s.posted + 1)
    case ShowToast(idx) => s.(toast := Some(Entry(s.posted, idx, OwnerOf(s.workspaces, idx))))
    case HideToast => s.(toast := None)
    case Clear => s.(entries := [])
    case AppendWorkspace(id) => s.(workspaces := s.workspaces + [id])
    case RemoveWorkspace(idx) =>
      s.(workspaces := s.workspaces[..idx] + s.workspaces[idx + 1..],
         entries := WithoutWorkspace(s.entries, idx),
         toast := ToastWithout(s.toast, idx))
  }

  // ---- what stays true ----

  /** The index still means the workspace it was posted for. */
  predicate Tracks(workspaces: seq<WorkspaceId>, e: Entry) {
    if e.owner.Some? then 0 <= e.workspaceIdx < |workspaces| && workspaces[e.workspaceIdx] == e.owner.value
    else e.workspaceIdx < 0
  }

  ghost predicate AllTrack(s: State) {
    && (forall i :: 0 <= i < |s.entries| ==> Tracks(s.workspaces, s.entries[i]))
    && (s.toast.Some? ==> Tracks(s.workspaces, s.toast.value))
  }

  /** In the order of posting. */
  ghost predicate InOrder(s: State) {
    && (forall i, j :: 0 <= i < j < |s.entries| ==> s.entries[i].serial < s.entries[j].serial)
    && forall i :: 0 <= i < |s.entries| ==> s.entries[i].serial < s.posted
  }

  ghost predicate Inv(s: State) {
    Distinct(s.workspaces) && AllTrack(s) && InOrder(s) && |s.entries| <= LIMIT
  }

  /** What survives the removal of a workspace, entry by entry and in order. */
  lemma {:induction false} Survivors(entries: seq<Entry>, removed: int)
    ensures forall e' :: e' in WithoutWorkspace(entries, removed) <==>
              exists i :: 0 <= i < |entries| && entries[i].workspaceIdx != removed && e' == Reindexed(entries[i], removed)
    ensures |WithoutWorkspace(entries, removed)| <= |entries|
  {
    if entries != [] {
      Survivors(entries[1..], removed);
      assert forall i :: 1 <= i < |entries| ==> entries[i] == entries[1..][i - 1];
      assert forall i :: 0 <= i < |entries| - 1 ==> entries[1..][i] == entries[i + 1];
    }
  }

  lemma {:induction false} SurvivorsInOrder(entries: seq<Entry>, removed: int)
    requires forall i, j :: 0 <= i < j < |entries| ==> entries[i].serial < entries[j].serial
    ensures var r := WithoutWorkspace(entries, removed);
            forall i, j :: 0 <= i < j < |r| ==> r[i].serial < r[j].serial
  {
    if entries != [] {
      var rest := WithoutWorkspace(entries[1..], removed);
      SurvivorsInOrder(entries[1..], removed);
      Survivors(entries[1..], removed);
      forall e | e in rest ensures entries[0].serial < e.serial {
        var i :| 0 <= i < |entries[1..]| && e == Reindexed(entries[1..][i], removed);
        assert entries[1..][i] == entries[i + 1];
      }
    }
  }

  lemma StillTracks(workspaces: seq<WorkspaceId>, e: Entry, removed: nat)
    requires removed < |workspaces| && Distinct(workspaces) && Tracks(workspaces, e) && e.workspaceIdx != removed
    ensures Tracks(workspaces[..removed] + workspaces[removed + 1..], Reindexed(e, removed))
    ensures e.owner != Some(workspaces[removed])
  {
  }

  lemma RemovalKeepsInv(s: State, idx: nat)
    requires Inv(s) && idx < |s.workspaces|
    ensures Inv(Take(s, RemoveWorkspace(idx)))
  {
    var s' := Take(s, RemoveWorkspace(idx));
    Survivors(s.entries, idx);
    SurvivorsInOrder(s.entries, idx);
    RestDistinct(s.workspaces, idx);
    forall i | 0 <= i < |s'.entries| ensures Tracks(s'.workspaces, s'.entries[i]) && s'.entries[i].serial < s'.posted {
      assert s'.entries[i] in s'.entries;
      var k :| 0 <= k < |s.entries| && s.entries[k].workspaceIdx != idx && s'.entries[i] == Reindexed(s.entries[k], idx);
      StillTracks(s.workspaces, s.entries[k], idx);
    }
  }

  /** When a workspace goes, exactly its own notifications go with it. */
  lemma RemovalIsExact(s: State, idx: nat, e: Entry)
    requires Inv(s) && idx < |s.workspaces| && e in s.entries
    ensures e.owner == Some(s.workspaces[idx]) <==> Reindexed(e, idx) !in Take(s, RemoveWorkspace(idx)).entries
  {
    Survivors(s.entries, idx);
    var k :| 0 <= k < |s.entries| && s.entries[k] == e;
    if e.workspaceIdx == idx {
      SerialTells(s, e, idx, k);
    } else {
      StillTracks(s.workspaces, e, idx);
    }
  }

  lemma SerialTells(s: State, e: Entry, idx: nat, k: nat)
    requires InOrder(s) && k < |s.entries| && s.entries[k] == e && e.workspaceIdx == idx
    ensures Reindexed(e, idx) !in WithoutWorkspace(s.entries, idx)
  {
    Survivors(s.entries, idx);
    forall j | 0 <= j < |s.entries| && s.entries[j].workspaceIdx != idx ensures Reindexed(s.entries[j], idx) != e {
      assert j != k;
    }
  }

  lemma RestDistinct(xs: seq<WorkspaceId>, i: nat)
    requires i < |xs| && Distinct(xs)
    ensures Distinct(xs[..i] + xs[i + 1..])
  {
    assert xs == xs[..i] + [xs[i]] + xs[i + 1..];
    DistinctMiddle(xs[..i], [xs[i]], xs[i + 1..]);
  }

  lemma StepKeepsInv(s: State, step: Step)
    requires Inv(s) && Enabled(s, step)
    ensures Inv(Take(s, step))
  {
    match step
    case AppendWorkspace(id) => DistinctParts(s.workspaces, [id]);
    case RemoveWorkspace(idx) =>
      RemovalKeepsInv(s, idx);
    case _ =>
  }

  /** Posting puts an entry at the end, and lets the oldest go when there were 50. */
  lemma PostKeepsNewest(s: State, idx: int)
    requires Inv(s) && idx < |s.workspaces|
    ensures Enabled(s, Post(idx))
    ensures Take(s, Post(idx)) ==
            s.(entries := (if |s.entries| == 50 then s.entries[1..] else s.entries)
                          + [Entry(s.posted, idx, if idx >= 0 then Some(s.workspaces[idx]) else None)],
               posted := s.posted + 1)
  {
  }

  /** Toasts, clearing and opening a workspace are possible at any time and change
      what they are about and nothing else. */
  lemma OtherStepsAre(s: State, idx: int, id: WorkspaceId)
    ensures Enabled(s, HideToast) && Take(s, HideToast) == s.(toast := None)
    ensures Enabled(s, Clear) && Take(s, Clear) == s.(entries := [])
    ensures idx < |s.workspaces| ==>
              && Enabled(s, ShowToast(idx))
              && Take(s, ShowToast(idx)) ==
                 s.(toast := Some(Entry(s.posted, idx, if idx >= 0 then Some(s.workspaces[idx]) else None)))
    ensures id !in s.workspaces ==>
              && Enabled(s, AppendWorkspace(id))
              && Take(s, AppendWorkspace(id)) == s.(workspaces := s.workspaces + [id])
  {
  }

  function RunAll(s: State, steps: seq<Step>): Option<State>
    decreases |steps|
  {
    if steps == [] then Some(s)
    else
      var before := RunAll(s, steps[..|steps| - 1]);
      if before.Some? && Enabled(before.value, steps[|steps| - 1]) then Some(Take(before.value, steps[|steps| - 1])) else None
  }

  /** Over any run of posts, toasts, and workspaces opened and closed: at most 50
      entries remain, in order, and each still names the workspace it was
      posted for, as does the toast. */
  lemma {:induction false} RunKeepsInv(workspaces: seq<WorkspaceId>, steps: seq<Step>)
    requires Distinct(workspaces)
    ensures var r := RunAll(State(workspaces, [], None, 0), steps); r.Some? ==> Inv(r.value)
    decreases |steps|
  {
    if steps != [] {
      var front := steps[..|steps| - 1];
      RunKeepsInv(workspaces, front);
      var before := RunAll(State(workspaces, [], None, 0), front);
      if before.Some? && Enabled(before.value, steps[|steps| - 1]) {
        StepKeepsInv(before.value, steps[|steps| - 1]);
      }
    }
  }

  // ---- reordering ----

  lemma MovedAt<T>(xs: seq<T>, from: nat, to: nat, k: nat)
    requires from < |xs| && to < |xs| && k < |xs|
    ensures Moved(xs, from, to)[k] ==
            if k == to then xs[from]
            else if from <= k < to then xs[k + 1]
            else if to < k <= from then xs[k - 1]
            else xs[k]
  {
  }

  /** The selected workspace stays selected when the list is reordered. */
  function CurrentAfter(current: int, from: nat, to: nat): int {
    if current == from then to
    else if from < current <= to then current - 1
    else if to <= current < from then current + 1
    else current
  }

  lemma MoveKeepsCurrent(workspaces: seq<WorkspaceId>, current: nat, from: nat, to: nat)
    requires from < |workspaces| && to < |workspaces| && current < |workspaces|
    ensures 0 <= CurrentAfter(current, from, to) < |workspaces|
    ensures Moved(workspaces, from, to)[CurrentAfter(current, from, to)] == workspaces[current]
  {
    MovedAt(workspaces, from, to, CurrentAfter(current, from, to));
  }

  /** Notifications are not told of it: one stays with its workspace exactly
      when its index lies outside the stretch between the two positions. */
  lemma MoveBreaksTrackingIff(workspaces: seq<WorkspaceId>, e: Entry, from: nat, to: nat)
    requires from < |workspaces| && to < |workspaces| && from != to
    requires Distinct(workspaces) && Tracks(workspaces, e)
    ensures Tracks(Moved(workspaces, from, to), e) <==>
            !(from <= e.workspaceIdx <= to || to <= e.workspaceIdx <= from)
  {
    if e.owner.Some? {
      MovedAt(workspaces, from, to, e.workspaceIdx);
    }
  }

  // ---- the program's own form ----

  /** What one round of the backward loop makes of the list. */
  lemma RemoveStep(was: seq<Entry>, i: nat, removed: int, entries: seq<Entry>)
    requires i < |was| && entries == was[..i + 1] + WithoutWorkspace(was[i + 1..], removed)
    ensures entries[i] == was[i]
    ensures var done := was[..i] + WithoutWorkspace(was[i..], removed);
            && (was[i].workspaceIdx == removed ==> entries[..i] + entries[i + 1..] == done)
            && (was[i].workspaceIdx != removed ==> entries[i := Reindexed(was[i], removed)] == done)
  {
    assert was[i..][1..] == was[i + 1..] && was[i..][0] == was[i];
  }

  class NotificationList {
    var entries: seq<Entry>
    var toast: Option<Entry>
    var posted: nat

    constructor ()
      ensures entries == [] && toast == None && posted == 0
    {
      entries, toast, posted := [], None, 0;
    }

    method AddFull(idx: int, workspaces: seq<WorkspaceId>)
      modifies this`entries, this`posted
      ensures entries == Newest(old(entries) + [Entry(old(posted), idx, OwnerOf(workspaces, idx))])
      ensures posted == old(posted) + 1
    {
      ghost var all := entries + [Entry(posted, idx, OwnerOf(workspaces, idx))];
      entries := entries + [Entry(posted, idx, OwnerOf(workspaces, idx))];
      posted := posted + 1;
      while |entries| > LIMIT
        invariant |entries| <= |all| && entries == all[|all| - |entries|..]
        invariant |entries| >= LIMIT || entries == all
        invariant posted == old(posted) + 1
        decreases |entries|
      {
        entries := entries[1..];
      }
      assert all[0..] == all;
    }

    /** Backwards, so that removing an entry does not disturb those to come. */
    method OnWorkspaceRemoved(removed: int)
      modifies this`entries, this`toast
      ensures removed < 0 ==> entries == old(entries) && toast == old(toast)
      ensures removed >= 0 ==> entries == WithoutWorkspace(old(entries), removed) && toast == ToastWithout(old(toast), removed)
    {
      if removed < 0 {
        return;
      }
      RemoveEntries(removed);
      UpdateToast(removed);
    }

    method RemoveEntries(removed: int)
      modifies this`entries
      ensures entries == WithoutWorkspace(old(entries), removed)
    {
      ghost var was := entries;
      var i := |entries| - 1;
      assert was[|was|..] == [] && was + [] == was;
      while i >= 0
        invariant -1 <= i < |was|
        invariant entries == was[..i + 1] + WithoutWorkspace(was[i + 1..], removed)
      {
        RemoveStep(was, i, removed, entries);
        if entries[i].workspaceIdx == removed {
          entries := entries[..i] + entries[i + 1..];
        } else if entries[i].workspaceIdx > removed {
          entries := entries[i := entries[i].(workspaceIdx := entries[i].workspaceIdx - 1)];
        }
        i := i - 1;
      }
      assert was[0..] == was;
    }

    method UpdateToast(removed: int)
      requires removed >= 0
      modifies this`toast
      ensures toast == ToastWithout(old(toast), removed)
    {
      if toast.Some? {
        if toast.value.workspaceIdx == removed {
          toast := None;
        } else if toast.value.workspaceIdx > removed {
          toast := Some(toast.value.(workspaceIdx := toast.value.workspaceIdx - 1));
        }
      }
    }
  }
}
