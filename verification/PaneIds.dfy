/**
  Giving every pane of a workspace an id (src/gtk/session.c:199-275).  A pane's
  id is a string, empty when it has none; `next` is the session's counter of
  generated ids.
 */
module PaneIds {
  import opened Decimals
  import opened Options
  import opened Sequences

  /** The counter of a session that has just started. */
  const FIRST_COUNTER: nat := 1

  const PREFIX := "pane-restored-"

  function Generated(n: nat): (id: string)
    ensures id != ""
  {
    PREFIX + Decimal(n)
  }

  lemma GeneratedInjective(m: nat, n: nat)
    ensures Generated(m) == Generated(n) ==> m == n
  {
    if Generated(m) == Generated(n) {
      assert Decimal(m) == Generated(m)[|PREFIX|..] == Generated(n)[|PREFIX|..] == Decimal(n);
      DecimalInjective(m, n);
    }
  }

  // ---- normalisation ----

  datatype Progress = Progress(ids: seq<string>, next: nat)

  /** Whether a pane gets a new id, given the ids of those before it. */
  predicate NeedsNew(id: string, before: seq<string>) {
    id == "" || id in before
  }

  /** The ids of the first `n` panes and the counter after the loop has been
      over them. */
  function Run(ids: seq<string>, next: nat, n: nat): (r: Progress)
    requires n <= |ids|
    ensures |r.ids| == n && next <= r.next
  {
    if n == 0 then Progress([], next)
    else
      var before := Run(ids, next, n - 1);
      if NeedsNew(ids[n - 1], before.ids)
      then Progress(before.ids + [Generated(before.next)], before.next + 1)
      else Progress(before.ids + [ids[n - 1]], before.next)
  }

  function Normalized(ids: seq<string>, next: nat): seq<string> {
    Run(ids, next, |ids|).ids
  }

  lemma {:induction false} RunPrefix(ids: seq<string>, next: nat, m: nat, n: nat)
    requires m <= n <= |ids|
    ensures Run(ids, next, m).ids == Run(ids, next, n).ids[..m] && Run(ids, next, m).next <= Run(ids, next, n).next
  {
    if m < n {
      RunPrefix(ids, next, m, n - 1);
      assert Run(ids, next, n).ids[..n - 1] == Run(ids, next, n - 1).ids;
      assert Run(ids, next, n).ids[..m] == Run(ids, next, n).ids[..n - 1][..m];
    } else {
      assert Run(ids, next, n).ids[..m] == Run(ids, next, n).ids;
    }
  }

  /** Every result is either the id the pane had or one generated since. */
  lemma {:induction false} RunEntries(ids: seq<string>, next: nat, n: nat)
    requires n <= |ids|
    ensures var r := Run(ids, next, n);
            forall i :: 0 <= i < n ==>
              && r.ids[i] != ""
              && (r.ids[i] == ids[i] || exists k: nat :: next <= k < r.next && r.ids[i] == Generated(k))
  {
    if n > 0 {
      var before, r := Run(ids, next, n - 1), Run(ids, next, n);
      RunEntries(ids, next, n - 1);
      forall i | 0 <= i < n
        ensures r.ids[i] != ""
        ensures r.ids[i] == ids[i] || exists k: nat :: next <= k < r.next && r.ids[i] == Generated(k)
      {
        if i < n - 1 {
          assert r.ids[i] == before.ids[i];
        } else if NeedsNew(ids[n - 1], before.ids) {
          assert r.ids[i] == Generated(before.next);
        }
      }
    }
  }

  /** No id vanishes: a pane's old id is always among those given so far. */
  lemma {:induction false} OldIdsRemain(ids: seq<string>, next: nat, n: nat)
    requires n <= |ids|
    ensures forall i :: 0 <= i < n && ids[i] != "" ==> ids[i] in Run(ids, next, n).ids
  {
    if n > 0 {
      OldIdsRemain(ids, next, n - 1);
      var before, r := Run(ids, next, n - 1), Run(ids, next, n);
      assert r.ids[..n - 1] == before.ids;
      assert forall x :: x in before.ids ==> x in r.ids;
      if !NeedsNew(ids[n - 1], before.ids) {
        assert r.ids[n - 1] == ids[n - 1];
      }
    }
  }

  /** A generated id is new exactly when no earlier pane came with it. */
  lemma GeneratedIsNew(ids: seq<string>, next: nat, n: nat)
    requires n <= |ids|
    ensures var r := Run(ids, next, n); Generated(r.next) in r.ids <==> Generated(r.next) in ids[..n]
  {
    var r := Run(ids, next, n);
    var id := Generated(r.next);
    RunEntries(ids, next, n);
    OldIdsRemain(ids, next, n);
    if id in r.ids {
      var i :| 0 <= i < n && r.ids[i] == id;
      if r.ids[i] != ids[i] {
        var k: nat :| next <= k < r.next && r.ids[i] == Generated(k);
        GeneratedInjective(k, r.next);
      }
      assert ids[..n][i] == id;
    }
  }

  /** Whether an id is among the first `c` that the counter issues. */
  predicate IssuedAmong(id: string, next: nat, c: nat) {
    exists k: nat :: next <= k < next + c && id == Generated(k)
  }

  /** How many of the first `n` panes get a new id: those without one, those
      with an earlier pane's, and those with an id that has been issued to an
      earlier pane. */
  function Issued(ids: seq<string>, next: nat, n: nat): nat
    requires n <= |ids|
  {
    if n == 0 then 0
    else
      var c := Issued(ids, next, n - 1);
      c + if ids[n - 1] == "" || ids[n - 1] in ids[..n - 1] || IssuedAmong(ids[n - 1], next, c) then 1 else 0
  }

  /** No id that is issued was brought along by an earlier pane. */
  predicate NoClash(ids: seq<string>, next: nat, n: nat)
    requires n <= |ids|
  {
    n > 0 ==>
      && NoClash(ids, next, n - 1)
      && (Issued(ids, next, n) > Issued(ids, next, n - 1) ==>
            Generated(next + Issued(ids, next, n - 1)) !in ids[..n - 1])
  }

  /** Every id issued so far has gone to a pane. */
  lemma {:induction false} IssuedAreGiven(ids: seq<string>, next: nat, n: nat, k: nat)
    requires n <= |ids| && next <= k < Run(ids, next, n).next
    ensures Generated(k) in Run(ids, next, n).ids
  {
    if n > 0 {
      var before, r := Run(ids, next, n - 1), Run(ids, next, n);
      if k < before.next {
        IssuedAreGiven(ids, next, n - 1, k);
        assert r.ids[..n - 1] == before.ids;
      } else {
        assert r.ids[n - 1] == Generated(k);
      }
    }
  }

  /** The ids given so far are those brought along and those issued. */
  lemma GivenIds(ids: seq<string>, next: nat, n: nat, id: string)
    requires n <= |ids| && id != ""
    ensures var r := Run(ids, next, n);
            id in r.ids <==> id in ids[..n] || IssuedAmong(id, next, r.next - next)
  {
    if id in Run(ids, next, n).ids {
      GivenWasBroughtOrIssued(ids, next, n, id);
    }
    OldIdsRemain(ids, next, n);
    var r := Run(ids, next, n);
    if IssuedAmong(id, next, r.next - next) {
      var k: nat :| next <= k < r.next && id == Generated(k);
      IssuedAreGiven(ids, next, n, k);
    }
  }

  lemma GivenWasBroughtOrIssued(ids: seq<string>, next: nat, n: nat, id: string)
    requires n <= |ids| && id in Run(ids, next, n).ids
    ensures id in ids[..n] || IssuedAmong(id, next, Run(ids, next, n).next - next)
  {
    var r := Run(ids, next, n);
    RunEntries(ids, next, n);
    var i :| 0 <= i < n && r.ids[i] == id;
    assert ids[..n][i] == ids[i];
  }

  /** The counter moves by as many ids as are issued. */
  lemma {:induction false} CounterCounts(ids: seq<string>, next: nat, n: nat)
    requires n <= |ids|
    ensures Run(ids, next, n).next == next + Issued(ids, next, n)
  {
    if n > 0 {
      CounterCounts(ids, next, n - 1);
      if ids[n - 1] != "" {
        GivenIds(ids, next, n - 1, ids[n - 1]);
      }
    }
  }

  lemma {:induction false} RunDistinct(ids: seq<string>, next: nat, n: nat)
    requires n <= |ids|
    ensures Distinct(Run(ids, next, n).ids) <==> NoClash(ids, next, n)
  {
    if n > 0 {
      RunDistinct(ids, next, n - 1);
      GeneratedIsNew(ids, next, n - 1);
      CounterCounts(ids, next, n - 1);
      CounterCounts(ids, next, n);
      var before := Run(ids, next, n - 1);
      DistinctAppend(before.ids, if NeedsNew(ids[n - 1], before.ids) then Generated(before.next) else ids[n - 1]);
    }
  }

  lemma DistinctAppend(ids: seq<string>, id: string)
    ensures Distinct(ids + [id]) <==> Distinct(ids) && id !in ids
  {
    DistinctParts(ids, [id]);
    assert id in [id];
  }

  lemma FirstHolderKeeps(ids: seq<string>, next: nat, i: nat)
    requires i < |ids| && ids[i] != "" && ids[i] !in Normalized(ids, next)[..i]
    ensures Normalized(ids, next)[i] == ids[i]
  {
    RunPrefix(ids, next, i, |ids|);
    RunPrefix(ids, next, i + 1, |ids|);
    assert Normalized(ids, next)[i] == Normalized(ids, next)[..i + 1][i];
  }

  /** After normalisation every pane has an id; the ids differ exactly when no
      generated one met a pane that already had it; and a pane that came first
      with an id of its own has kept it. */
  lemma NormalizedIds(ids: seq<string>, next: nat)
    ensures var r := Normalized(ids, next);
            && |r| == |ids|
            && (forall i :: 0 <= i < |ids| ==> r[i] != "")
            && (Distinct(r) <==> NoClash(ids, next, |ids|))
            && (forall i :: 0 <= i < |ids| && ids[i] != "" && ids[i] !in r[..i] ==> r[i] == ids[i])
  {
    RunEntries(ids, next, |ids|);
    RunDistinct(ids, next, |ids|);
    var r := Normalized(ids, next);
    forall i | 0 <= i < |ids| && ids[i] != "" && ids[i] !in r[..i] ensures r[i] == ids[i] {
      FirstHolderKeeps(ids, next, i);
    }
  }

  /** In particular they differ when no pane comes with an id that is still to
      be generated, and then the first holder of every id keeps it. */
  lemma FreshCounterSuffices(ids: seq<string>, next: nat)
    requires forall i, k: nat :: 0 <= i < |ids| && next <= k ==> ids[i] != Generated(k)
    ensures var r := Normalized(ids, next);
            && Distinct(r)
            && forall i :: 0 <= i < |ids| && ids[i] != "" && ids[i] !in ids[..i] ==> r[i] == ids[i]
  {
    var r := Normalized(ids, next);
    NormalizedIds(ids, next);
    NothingClashes(ids, next, |ids|);
    RunEntries(ids, next, |ids|);
    forall i | 0 <= i < |ids| && ids[i] !in ids[..i] && ids[i] != "" ensures ids[i] !in r[..i] {
      forall j | 0 <= j < i ensures r[j] != ids[i] {
        assert ids[j] == ids[..i][j];
      }
    }
  }

  lemma {:induction false} NothingClashes(ids: seq<string>, next: nat, n: nat)
    requires n <= |ids| && forall i, k: nat :: 0 <= i < |ids| && next <= k ==> ids[i] != Generated(k)
    ensures NoClash(ids, next, n)
  {
    if n > 0 {
      NothingClashes(ids, next, n - 1);
    }
  }

  /** The code does not check for it.  After a restart the counter is at its
      first value again, while a pane has got its saved id back that was
      generated in the session before; when two other panes have the same id,
      one of them is given that id too. */
  lemma CountersCanClash()
    ensures Normalized(["pane-restored-1", "pane-3", "pane-3"], FIRST_COUNTER) ==
            ["pane-restored-1", "pane-3", "pane-restored-1"]
  {
    assert Decimal(1) == "1" && Generated(1) == "pane-restored-1";
    OneClash(Generated(1), "pane-3");
  }

  lemma OneClash(id: string, other: string)
    requires id == Generated(1) && other != "" && other != id
    ensures Normalized([id, other, other], 1) == [id, other, id]
  {
    var ids := [id, other, other];
    assert Run(ids, 1, 0) == Progress([], 1);
    assert Run(ids, 1, 1) == Progress([id], 1);
    assert Run(ids, 1, 2) == Progress([id, other], 1);
  }

  /** The loop over the workspace's panes, which overwrites their ids. */
  method NormalizeWorkspacePaneIds(ids: array<string>, next: nat) returns (next': nat)
    modifies ids
    ensures Progress(ids[..], next') == Run(old(ids[..]), next, ids.Length)
  {
    ghost var was := ids[..];
    var seen: set<string> := {};
    next' := next;
    for i := 0 to ids.Length
      invariant Progress(ids[..i], next') == Run(was, next, i)
      invariant ids[i..] == was[i..]
      invariant forall x :: x in seen <==> x in ids[..i]
    {
      assert ids[i] == was[i];
      assert NeedsNew(ids[i], ids[..i]) <==> ids[i] == "" || ids[i] in seen;
      if ids[i] == "" || ids[i] in seen {
        ids[i] := Generated(next');
        next' := next' + 1;
      }
      seen := seen + {ids[i]};
      assert ids[..i + 1] == ids[..i] + [ids[i]];
    }
    assert ids[..ids.Length] == ids[..];
  }

  // ---- assigning the saved ids in order ----

  datatype Assignment = Assignment(ids: seq<string>, given: set<string>, next: nat)

  /** The ids of the first `n` panes: the saved ones, except where one is
      missing or already given.  An entry that is no object (None) leaves the
      pane alone. */
  function Assigned(saved: seq<Option<string>>, was: seq<string>, next: nat, n: nat): (r: Assignment)
    requires n <= |was|
    ensures |r.ids| == n
  {
    if n == 0 then Assignment([], {}, next)
    else
      var r := Assigned(saved, was, next, n - 1);
      if n - 1 < |saved| && saved[n - 1].None? then r.(ids := r.ids + [was[n - 1]])
      else if n - 1 < |saved| && saved[n - 1].value != "" && saved[n - 1].value !in r.given then
        r.(ids := r.ids + [saved[n - 1].value], given := r.given + {saved[n - 1].value})
      else
        Assignment(r.ids + [Generated(r.next)], r.given + {Generated(r.next)}, r.next + 1)
  }

  /** One saved id per pane, all different: each pane gets its own, in order. */
  lemma {:induction false} SavedOrderIsAssigned(saved: seq<Option<string>>, was: seq<string>, next: nat, n: nat)
    requires n <= |was| == |saved|
    requires forall i :: 0 <= i < |saved| ==> saved[i].Some? && saved[i].value != ""
    requires Distinct(saved)
    ensures var r := Assigned(saved, was, next, n);
            && (forall i :: 0 <= i < n ==> r.ids[i] == saved[i].value)
            && (forall id :: id in r.given ==> Some(id) in saved[..n])
  {
    if n > 0 {
      SavedOrderIsAssigned(saved, was, next, n - 1);
      var before := Assigned(saved, was, next, n - 1);
      assert saved[..n] == saved[..n - 1] + [saved[n - 1]];
      DistinctParts(saved[..n - 1], saved[n - 1..]);
      assert saved == saved[..n - 1] + saved[n - 1..];
      assert saved[n - 1] in saved[n - 1..];
    }
  }

  predicate IsTouched(saved: seq<Option<string>>, i: nat) {
    i >= |saved| || saved[i].Some?
  }

  /** The ids that the saved entries want for the panes that are touched; a pane
      without an entry is to have a new one. */
  function Wanted(saved: seq<Option<string>>, n: nat): seq<string> {
    if n == 0 then []
    else Wanted(saved, n - 1) +
         if IsTouched(saved, n - 1) then [if n - 1 < |saved| then saved[n - 1].value else ""] else []
  }

  /** The ids of the panes that are touched. */
  function Touched(ids: seq<string>, saved: seq<Option<string>>, n: nat): seq<string>
    requires n <= |ids|
  {
    if n == 0 then [] else Touched(ids, saved, n - 1) + if IsTouched(saved, n - 1) then [ids[n - 1]] else []
  }

  lemma {:induction false} TouchedInFront(ids: seq<string>, more: seq<string>, saved: seq<Option<string>>, n: nat)
    requires n <= |ids|
    ensures Touched(ids + more, saved, n) == Touched(ids, saved, n)
  {
    if n > 0 {
      TouchedInFront(ids, more, saved, n - 1);
    }
  }

  lemma {:induction false} RunInFront(ids: seq<string>, more: seq<string>, next: nat, n: nat)
    requires n <= |ids|
    ensures Run(ids + more, next, n) == Run(ids, next, n)
  {
    if n > 0 {
      RunInFront(ids, more, next, n - 1);
    }
  }

  /** Assigning gives the touched panes what normalising the wanted ids would give
      them, and so what NormalizedIds says of it. */
  lemma {:induction false} AssignedIsNormalized(saved: seq<Option<string>>, was: seq<string>, next: nat, n: nat)
    requires n <= |was|
    ensures var (r, w) := (Assigned(saved, was, next, n), Wanted(saved, n));
            && Progress(Touched(r.ids, saved, n), r.next) == Run(w, next, |w|)
            && forall id :: id in r.given <==> id in Touched(r.ids, saved, n)
  {
    if n > 0 {
      var r, w := Assigned(saved, was, next, n - 1), Wanted(saved, n - 1);
      AssignedIsNormalized(saved, was, next, n - 1);
      if IsTouched(saved, n - 1) {
        var x := if n - 1 < |saved| then saved[n - 1].value else "";
        RunOneMore(w, x, next);
        var id := AssignOneMore(saved, was, next, n, x);
        assert NeedsNew(x, Touched(r.ids, saved, n - 1)) <==> x == "" || x in r.given;
        TouchOneMore(r.ids, id, saved);
      } else {
        TouchOneMore(r.ids, was[n - 1], saved);
        assert w + [] == w;
      }
    }
  }

  lemma AssignOneMore(saved: seq<Option<string>>, was: seq<string>, next: nat, n: nat, x: string) returns (id: string)
    requires 0 < n <= |was| && IsTouched(saved, n - 1) && x == if n - 1 < |saved| then saved[n - 1].value else ""
    ensures var r := Assigned(saved, was, next, n - 1);
            var isNew := x == "" || x in r.given;
            && id == (if isNew then Generated(r.next) else x)
            && Assigned(saved, was, next, n) ==
               Assignment(r.ids + [id], r.given + {id}, if isNew then r.next + 1 else r.next)
  {
    var r := Assigned(saved, was, next, n - 1);
    id := if x == "" || x in r.given then Generated(r.next) else x;
  }

  /** Assigning leaves the other panes alone. */
  lemma {:induction false} UntouchedKeepTheirs(saved: seq<Option<string>>, was: seq<string>, next: nat, n: nat, i: nat)
    requires i < n <= |was| && !IsTouched(saved, i)
    ensures Assigned(saved, was, next, n).ids[i] == was[i]
  {
    if i < n - 1 {
      UntouchedKeepTheirs(saved, was, next, n - 1, i);
    }
  }

  lemma RunOneMore(w: seq<string>, x: string, next: nat)
    ensures var b := Run(w, next, |w|);
            Run(w + [x], next, |w + [x]|) ==
            if NeedsNew(x, b.ids) then Progress(b.ids + [Generated(b.next)], b.next + 1) else Progress(b.ids + [x], b.next)
  {
    RunInFront(w, [x], next, |w|);
  }

  lemma TouchOneMore(ids: seq<string>, id: string, saved: seq<Option<string>>)
    ensures Touched(ids + [id], saved, |ids| + 1) ==
            Touched(ids, saved, |ids|) + if IsTouched(saved, |ids|) then [id] else []
  {
    TouchedInFront(ids, [id], saved, |ids|);
  }

  method AssignPaneIdsFromSavedOrder(ids: array<string>, saved: seq<Option<string>>, next: nat) returns (next': nat)
    modifies ids
    ensures var r := Assigned(saved, old(ids[..]), next, ids.Length); ids[..] == r.ids && next' == r.next
  {
    ghost var was := ids[..];
    var seen: set<string> := {};
    next' := next;
    for i := 0 to ids.Length
      invariant Assignment(ids[..i], seen, next') == Assigned(saved, was, next, i)
      invariant ids[i..] == was[i..]
    {
      assert ids[i] == was[i];
      if i >= |saved| || saved[i].Some? {
        if i < |saved| && saved[i].value != "" && saved[i].value !in seen {
          ids[i] := saved[i].value;
        } else {
          ids[i] := Generated(next');
          next' := next' + 1;
        }
        seen := seen + {ids[i]};
      }
      assert ids[..i + 1] == ids[..i] + [ids[i]];
    }
    assert ids[..ids.Length] == ids[..];
  }
}
