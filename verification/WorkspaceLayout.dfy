/**
  Rebuilding a workspace for the other layout mode
  (src/gtk/workspace_layout.c:5-136): the notebooks are collected from the widget
  tree, the primary one is swapped to the front, and a new root is built.
 */
module WorkspaceLayout {
  import opened Options
  import opened Sequences
  import opened StripModel
  import opened StripInvariants

  datatype Mode = Classic | StripMode

  datatype Widget =
    | Notebook(pane: Pane)
    | Paned(vertical: bool, start: Widget, end: Widget)
    | Box(children: seq<Widget>)

  datatype Workspace = Workspace(
    mode: Mode,
    overlay: bool,                // whether there is one
    root: Option<Widget>,         // the child of the overlay
    primary: Option<Pane>,        // ws->notebook
    panes: seq<Pane>,             // ws->pane_notebooks
    strip: Option<Strip>)

  function Leaves(w: Widget): seq<Pane> {
    match w
    case Notebook(p) => [p]
    case Paned(_, start, end) => Leaves(start) + Leaves(end)
    case Box(children) => AllLeaves(children)
  }

  function AllLeaves(ws: seq<Widget>): seq<Pane> {
    if ws == [] then [] else Leaves(ws[0]) + AllLeaves(ws[1..])
  }

  // ---- collecting ----

  function AddSaved(saved: seq<Pane>, p: Pane): seq<Pane> {
    if p in saved then saved else saved + [p]
  }

  function AddAll(saved: seq<Pane>, ps: seq<Pane>): seq<Pane>
    decreases |ps|
  {
    if ps == [] then saved else AddAll(AddSaved(saved, ps[0]), ps[1..])
  }

  lemma {:induction false} AddAllConcat(saved: seq<Pane>, a: seq<Pane>, b: seq<Pane>)
    ensures AddAll(saved, a + b) == AddAll(AddAll(saved, a), b)
    decreases |a|
  {
    if a == [] {
      assert a + b == b;
    } else {
      assert (a + b)[1..] == a[1..] + b;
      AddAllConcat(AddSaved(saved, a[0]), a[1..], b);
    }
  }

  lemma {:induction false} AddAllNew(saved: seq<Pane>, ps: seq<Pane>)
    requires Distinct(saved + ps)
    ensures AddAll(saved, ps) == saved + ps
    decreases |ps|
  {
    if ps == [] {
      assert saved + ps == saved;
    } else {
      DistinctParts(saved, ps);
      assert ps[0] in ps && saved + [ps[0]] + ps[1..] == saved + ps;
      AddAllNew(saved + [ps[0]], ps[1..]);
    }
  }

  function FirstIndex(ps: seq<Pane>, p: Pane): (i: nat)
    requires p in ps
    ensures i < |ps| && ps[i] == p && p !in ps[..i]
  {
    if ps[0] == p then 0
    else
      var i := FirstIndex(ps[1..], p);
      assert forall k :: 1 <= k < i + 1 ==> ps[k] == ps[1..][k - 1];
      i + 1
  }

  /** The primary trades places with the first. */
  function PrimaryFirst(ps: seq<Pane>, primary: Pane): (r: seq<Pane>)
    requires primary in ps
    ensures |r| == |ps| && r[0] == primary
  {
    var i := FirstIndex(ps, primary);
    ps[i := ps[0]][0 := primary]
  }

  /** The panes of a workspace in the order in which they will be laid out. */
  function SavedPanes(ws: Workspace): (saved: seq<Pane>)
    requires ws.primary.Some?
  {
    AddSaved(if FromTree(ws) == [] then AddAll([], ws.panes) else FromTree(ws), ws.primary.value)
  }

  /** The notebooks found below the overlay, each once. */
  function FromTree(ws: Workspace): seq<Pane> {
    if ws.root.Some? then AddAll([], Leaves(ws.root.value)) else []
  }

  // ---- building ----

  /** Horizontal splits nested to the left. */
  function Comb(ps: seq<Pane>): Widget
    requires ps != []
  {
    if |ps| == 1 then Notebook(ps[0])
    else Paned(false, Comb(ps[..|ps| - 1]), Notebook(ps[|ps| - 1]))
  }

  function Notebooks(ps: seq<Pane>): (r: seq<Widget>)
    ensures |r| == |ps|
  {
    seq(|ps|, i requires 0 <= i < |ps| => Notebook(ps[i]))
  }

  /** A strip with one column for each of the first `n` panes. */
  function StripOf(ps: seq<Pane>, n: nat, width: int, active: Option<Pane>): Strip
    requires 0 < n <= |ps|
  {
    if n == 1 then CreateRoot(ps[0], width, active) else AddColumn(StripOf(ps, n - 1, width, active), ps[n - 1])
  }

  /** workspace_rebuild_for_layout_mode, up to the focus it gives at the end. */
  function Rebuild(ws: Workspace, mode: Mode, width: int, active: Option<Pane>): (bool, Workspace) {
    if ws.mode == mode then (true, ws)
    else if !ws.overlay || ws.primary.None? then (false, ws)
    else
      SavedHasPrimary(ws);
      (true, LaidOut(PrimaryFirst(SavedPanes(ws), ws.primary.value), mode, width, active))
  }

  /** A workspace with some panes, newly laid out. */
  function LaidOut(order: seq<Pane>, mode: Mode, width: int, active: Option<Pane>): Workspace
    requires order != []
  {
    Workspace(
      mode,
      true,
      Some(if mode == Classic then Comb(order) else Box(Notebooks(order))),
      Some(order[0]),
      order,
      if mode == Classic then None else Some(StripOf(order, |order|, width, active)))
  }

  lemma SavedHasPrimary(ws: Workspace)
    requires ws.primary.Some?
    ensures ws.primary.value in SavedPanes(ws)
  {
  }

  // ---- what a rebuild keeps ----

  /** The leaves of the tree are the workspace's panes, the primary among them. */
  ghost predicate Consistent(ws: Workspace) {
    && ws.overlay && ws.root.Some? && ws.primary.Some?
    && Distinct(Leaves(ws.root.value))
    && ws.primary.value in Leaves(ws.root.value)
    && multiset(Leaves(ws.root.value)) == multiset(ws.panes)
  }

  lemma SavedIsLeaves(ws: Workspace)
    requires Consistent(ws)
    ensures SavedPanes(ws) == Leaves(ws.root.value)
  {
    var leaves := Leaves(ws.root.value);
    assert [] + leaves == leaves;
    AddAllNew([], leaves);
  }

  lemma PrimaryFirstPermutes(ps: seq<Pane>, primary: Pane)
    requires primary in ps && Distinct(ps)
    ensures multiset(PrimaryFirst(ps, primary)) == multiset(ps) && Distinct(PrimaryFirst(ps, primary))
    ensures PrimaryFirst(ps, primary) == ps <==> ps[0] == primary
    ensures PrimaryFirst(PrimaryFirst(ps, primary), primary) == PrimaryFirst(ps, primary)
  {
    var i, r := FirstIndex(ps, primary), PrimaryFirst(ps, primary);
    forall j, k | 0 <= j < k < |ps| ensures r[j] != r[k] {
      assert ps[0] != ps[k] && (j != i ==> ps[j] != ps[i]);
    }
    forall x ensures x in r <==> x in ps {
      if x in ps {
        var k :| 0 <= k < |ps| && ps[k] == x;
        assert r[if k == i then 0 else if k == 0 then i else k] == x;
      }
    }
    SameElementsPermute(r, ps);
    if ps[0] == primary {
      assert r == ps;
    }
    assert FirstIndex(r, primary) == 0;
    assert PrimaryFirst(r, primary) == r;
  }

  lemma {:induction false} CombLeaves(ps: seq<Pane>)
    requires ps != []
    ensures Leaves(Comb(ps)) == ps
  {
    if |ps| > 1 {
      CombLeaves(ps[..|ps| - 1]);
      assert ps == ps[..|ps| - 1] + [ps[|ps| - 1]];
    }
  }

  /** Side by side: no split of a new classic root is vertical. */
  predicate SideBySide(w: Widget) {
    w.Paned? ==> !w.vertical && SideBySide(w.start) && SideBySide(w.end)
  }

  lemma {:induction false} CombIsSideBySide(ps: seq<Pane>)
    requires ps != []
    ensures SideBySide(Comb(ps))
  {
    if |ps| > 1 {
      CombIsSideBySide(ps[..|ps| - 1]);
    }
  }

  lemma {:induction false} BoxLeaves(ps: seq<Pane>)
    ensures AllLeaves(Notebooks(ps)) == ps
  {
    if ps != [] {
      BoxLeaves(ps[1..]);
      assert Notebooks(ps)[1..] == Notebooks(ps[1..]);
    }
  }

  lemma {:induction false} StripHoldsPanes(ps: seq<Pane>, n: nat, width: int, active: Option<Pane>)
    requires 0 < n <= |ps| && Distinct(ps)
    ensures Inv(StripOf(ps, n, width, active)) && Panes(StripOf(ps, n, width, active)) == ps[..n]
  {
    if n == 1 {
      CreateEstablishesInv(ps[0], width, active);
      assert ps[..1] == [ps[0]];
    } else {
      StripHoldsPanes(ps, n - 1, width, active);
      assert ps[n - 1] !in ps[..n - 1];
      AddKeepsInv(StripOf(ps, n - 1, width, active), ps[n - 1]);
      assert ps[..n] == ps[..n - 1] + [ps[n - 1]];
    }
  }

  lemma LaidOutIsConsistent(order: seq<Pane>, mode: Mode, width: int, active: Option<Pane>)
    requires order != [] && Distinct(order)
    ensures var ws := LaidOut(order, mode, width, active);
            && Consistent(ws) && Leaves(ws.root.value) == order
            && (mode == StripMode ==> Panes(ws.strip.value) == order && Inv(ws.strip.value))
  {
    CombLeaves(order);
    BoxLeaves(order);
    StripHoldsPanes(order, |order|, width, active);
    assert order[..|order|] == order;
  }

  lemma RebuildLaysOut(ws: Workspace, mode: Mode, width: int, active: Option<Pane>)
    requires Consistent(ws) && mode != ws.mode
    ensures Rebuild(ws, mode, width, active) ==
            (true, LaidOut(PrimaryFirst(Leaves(ws.root.value), ws.primary.value), mode, width, active))
  {
    SavedIsLeaves(ws);
  }

  /** The panes of the new root, from left to right, are the old ones with the
      primary swapped to the front; the pane array and, in strip mode, the
      columns list them in just that order. */
  lemma RebuildConservesPanes(ws: Workspace, mode: Mode, width: int, active: Option<Pane>)
    requires Consistent(ws) && mode != ws.mode
    ensures var (ok, ws') := Rebuild(ws, mode, width, active);
            var order := PrimaryFirst(Leaves(ws.root.value), ws.primary.value);
            && ok && Consistent(ws') && ws'.mode == mode
            && Leaves(ws'.root.value) == ws'.panes == order
            && multiset(order) == multiset(Leaves(ws.root.value))
            && ws'.primary == ws.primary
            && (mode == StripMode ==> Panes(ws'.strip.value) == order && Inv(ws'.strip.value))
  {
    RebuildLaysOut(ws, mode, width, active);
    var leaves := Leaves(ws.root.value);
    var order := PrimaryFirst(leaves, ws.primary.value);
    PrimaryFirstPermutes(leaves, ws.primary.value);
    LaidOutIsConsistent(order, mode, width, active);
  }

  /** The order of the panes survives a rebuild exactly when the primary was
      leftmost. */
  lemma OrderKeptIff(ws: Workspace, mode: Mode, width: int, active: Option<Pane>)
    requires Consistent(ws) && mode != ws.mode
    ensures Rebuild(ws, mode, width, active).1.root.Some?
    ensures Leaves(Rebuild(ws, mode, width, active).1.root.value) == Leaves(ws.root.value) <==>
            Leaves(ws.root.value)[0] == ws.primary.value
  {
    RebuildConservesPanes(ws, mode, width, active);
    PrimaryFirstPermutes(Leaves(ws.root.value), ws.primary.value);
  }

  /** From classic to strip and back: the order is that of one rebuild, so it is
      the old one exactly when the primary was leftmost; the nesting of the
      splits is not restored. */
  lemma ThereAndBack(ws: Workspace, width: int, active: Option<Pane>, width': int, active': Option<Pane>)
    requires Consistent(ws) && ws.mode == Classic
    ensures var back := Rebuild(Rebuild(ws, StripMode, width, active).1, Classic, width', active').1;
            && Consistent(back) && back.mode == Classic
            && Leaves(back.root.value) == PrimaryFirst(Leaves(ws.root.value), ws.primary.value)
            && back.root.value == Comb(back.panes) && SideBySide(back.root.value)
            && (Leaves(back.root.value) == Leaves(ws.root.value) <==> Leaves(ws.root.value)[0] == ws.primary.value)
  {
    var there := Rebuild(ws, StripMode, width, active).1;
    var back := Rebuild(there, Classic, width', active').1;
    RebuildConservesPanes(ws, StripMode, width, active);
    RebuildConservesPanes(there, Classic, width', active');
    PrimaryFirstPermutes(Leaves(ws.root.value), ws.primary.value);
    SavedIsLeaves(there);
    CombIsSideBySide(back.panes);
  }

  // ---- what a rebuild repairs ----

  lemma {:induction false} AddAllCollects(saved: seq<Pane>, ps: seq<Pane>)
    requires Distinct(saved)
    ensures Distinct(AddAll(saved, ps))
    ensures forall x :: x in AddAll(saved, ps) <==> x in saved || x in ps
    decreases |ps|
  {
    if ps != [] {
      assert Distinct(AddSaved(saved, ps[0]));
      AddAllCollects(AddSaved(saved, ps[0]), ps[1..]);
      assert forall x :: x in ps <==> x == ps[0] || x in ps[1..];
    }
  }

  /** The panes to be found: below the overlay, or, if there are none there, in
      the pane array; and the primary. */
  ghost predicate Known(ws: Workspace, p: Pane) {
    || ws.primary == Some(p)
    || (ws.root.Some? && p in Leaves(ws.root.value))
    || ((ws.root.None? || Leaves(ws.root.value) == []) && p in ws.panes)
  }

  lemma SavedIsKnown(ws: Workspace)
    requires ws.primary.Some?
    ensures Distinct(SavedPanes(ws)) && forall p :: p in SavedPanes(ws) <==> Known(ws, p)
  {
    AddAllCollects([], ws.panes);
    if ws.root.Some? {
      var leaves := Leaves(ws.root.value);
      AddAllCollects([], leaves);
      if leaves != [] {
        assert leaves[0] in FromTree(ws);
      }
    }
  }

  lemma KnownAreOrdered(ws: Workspace) returns (order: seq<Pane>)
    requires ws.primary.Some?
    ensures ws.primary.value in SavedPanes(ws) && order == PrimaryFirst(SavedPanes(ws), ws.primary.value)
    ensures Distinct(order) && forall p :: p in order <==> Known(ws, p)
  {
    var saved := SavedPanes(ws);
    SavedIsKnown(ws);
    PrimaryFirstPermutes(saved, ws.primary.value);
    order := PrimaryFirst(saved, ws.primary.value);
    forall p ensures p in order <==> p in saved {
      assert p in order <==> p in multiset(order);
    }
  }

  /** A rebuild for the mode that is there does nothing; another one fails exactly
      without an overlay or without a primary, and then changes nothing. */
  lemma RebuildFailsIff(ws: Workspace, mode: Mode, width: int, active: Option<Pane>)
    ensures var (ok, ws') := Rebuild(ws, mode, width, active);
            && (ok <==> ws.mode == mode || (ws.overlay && ws.primary.Some?))
            && (!ok || ws.mode == mode ==> ws' == ws)
  {
  }

  /** Whatever the tree and the pane array hold: every pane that can be found is
      laid out, once, the primary first. */
  lemma RebuildRepairs(ws: Workspace, mode: Mode, width: int, active: Option<Pane>)
    requires mode != ws.mode && ws.overlay && ws.primary.Some?
    ensures var ws' := Rebuild(ws, mode, width, active).1;
            && Consistent(ws') && ws'.mode == mode && ws'.primary == ws.primary
            && Leaves(ws'.root.value) == ws'.panes
            && forall p :: p in ws'.panes <==> Known(ws, p)
  {
    var order := KnownAreOrdered(ws);
    LaidOutIsConsistent(order, mode, width, active);
    assert Rebuild(ws, mode, width, active).1 == LaidOut(order, mode, width, active);
  }

  // ---- the program's own form ----

  /** Adds the notebooks of a widget tree that have not been collected yet. */
  method CollectNotebooks(w: Widget, saved: seq<Pane>) returns (saved': seq<Pane>)
    ensures saved' == AddAll(saved, Leaves(w))
    decreases w
  {
    match w
    case Notebook(p) =>
      saved' := AddSavedNotebook(saved, p);
      assert [p][1..] == [];
    case Paned(_, start, end) =>
      saved' := CollectNotebooks(start, saved);
      saved' := CollectNotebooks(end, saved');
      AddAllConcat(saved, Leaves(start), Leaves(end));
    case Box(children) =>
      saved' := saved;
      for i := 0 to |children|
        invariant AddAll(saved, AllLeaves(children)) == AddAll(saved', AllLeaves(children[i..]))
      {
        AddAllConcat(saved', Leaves(children[i]), AllLeaves(children[i + 1..]));
        assert children[i..][1..] == children[i + 1..];
        saved' := CollectNotebooks(children[i], saved');
      }
  }

  method AddSavedNotebook(saved: seq<Pane>, p: Pane) returns (saved': seq<Pane>)
    ensures saved' == AddSaved(saved, p)
  {
    for i := 0 to |saved|
      invariant p !in saved[..i]
    {
      if saved[i] == p {
        return saved;
      }
    }
    assert saved[..|saved|] == saved;
    return saved + [p];
  }

  method SwapPrimaryToFront(saved: array<Pane>, primary: Pane)
    requires primary in saved[..]
    modifies saved
    ensures saved[..] == PrimaryFirst(old(saved[..]), primary)
  {
    ghost var was := saved[..];
    for i := 0 to saved.Length
      invariant saved[..] == was && primary !in was[..i]
    {
      if saved[i] == primary {
        IndexIsFirst(was, primary, i);
        if i > 0 {
          saved[0], saved[i] := saved[i], saved[0];
        }
        assert saved[..] == PrimaryFirst(was, primary);
        return;
      }
    }
  }

  lemma IndexIsFirst(ps: seq<Pane>, p: Pane, i: nat)
    requires i < |ps| && ps[i] == p && p !in ps[..i]
    ensures FirstIndex(ps, p) == i
  {
    var k := FirstIndex(ps, p);
    assert forall m :: 0 <= m < i ==> ps[m] == ps[..i][m];
    assert forall m :: 0 <= m < k ==> ps[m] == ps[..k][m];
  }

  /** The workspace as its layout code sees and changes it. */
  class LayoutWorkspace {
    var mode: Mode
    var overlay: bool
    var root: Option<Widget>
    var notebook: Option<Pane>
    var paneNotebooks: seq<Pane>
    var strip: Option<Strip>

    constructor (first: Pane)
      ensures Val() == Workspace(Classic, true, Some(Notebook(first)), Some(first), [first], None)
    {
      mode := Classic;
      overlay := true;
      root := Some(Notebook(first));
      notebook := Some(first);
      paneNotebooks := [first];
      strip := None;
    }

    ghost function Val(): Workspace
      reads this
    {
      Workspace(mode, overlay, root, notebook, paneNotebooks, strip)
    }

    method CollectAll() returns (saved: seq<Pane>)
      requires notebook.Some?
      ensures saved == SavedPanes(Val())
    {
      saved := [];
      if root.Some? {
        saved := CollectNotebooks(root.value, saved);
      }
      if saved == [] {
        for i := 0 to |paneNotebooks|
          invariant AddAll([], paneNotebooks) == AddAll(saved, paneNotebooks[i..])
        {
          saved := AddSavedNotebook(saved, paneNotebooks[i]);
          assert paneNotebooks[i..][1..] == paneNotebooks[i + 1..];
        }
      }
      saved := AddSavedNotebook(saved, notebook.value);
    }

    method BuildRoot(order: array<Pane>, width: int, active: Option<Pane>) returns (newRoot: Widget)
      requires order.Length > 0
      modifies this`strip
      ensures newRoot == if mode == Classic then Comb(order[..]) else Box(Notebooks(order[..]))
      ensures strip == if mode == Classic then None else Some(StripOf(order[..], order.Length, width, active))
    {
      ghost var all := order[..];
      if mode == StripMode {
        var columns := [Notebook(order[0])];
        var s := CreateRoot(order[0], width, active);
        assert all[..1] == [order[0]];
        for i := 1 to order.Length
          invariant s == StripOf(all, i, width, active)
          invariant columns == Notebooks(all[..i])
        {
          s := AddColumn(s, order[i]);
          columns := columns + [Notebook(order[i])];
        }
        assert all[..order.Length] == all;
        strip := Some(s);
        return Box(columns);
      }
      strip := None;
      newRoot := Notebook(order[0]);
      assert all[..1] == [order[0]];
      for i := 1 to order.Length
        invariant newRoot == Comb(all[..i])
      {
        assert all[..i + 1][..i] == all[..i];
        newRoot := Paned(false, newRoot, Notebook(order[i]));
      }
      assert all[..order.Length] == all;
    }

    method RebuildForLayoutMode(newMode: Mode, width: int, active: Option<Pane>) returns (ok: bool)
      modifies this
      ensures (ok, Val()) == Rebuild(old(Val()), newMode, width, active)
    {
      if mode == newMode {
        return true;
      }
      if !overlay || notebook.None? {
        return false;
      }
      var collected := CollectAll();
      var saved := new Pane[|collected|](i requires 0 <= i < |collected| => collected[i]);
      assert saved[..] == collected;
      SwapPrimaryToFront(saved, notebook.value);
      FinishRebuild(saved, newMode, width, active);
      return true;
    }

    method FinishRebuild(saved: array<Pane>, newMode: Mode, width: int, active: Option<Pane>)
      requires saved.Length > 0 && overlay
      modifies this
      ensures Val() == LaidOut(saved[..], newMode, width, active)
    {
      mode := newMode;
      var newRoot := BuildRoot(saved, width, active);
      root := Some(newRoot);
      RefillPaneNotebooks(saved);
      notebook := Some(saved[0]);
    }

    method RefillPaneNotebooks(saved: array<Pane>)
      modifies this`paneNotebooks
      ensures paneNotebooks == saved[..]
    {
      paneNotebooks := [];
      for i := 0 to saved.Length
        invariant paneNotebooks == saved[..i]
      {
        paneNotebooks := paneNotebooks + [saved[i]];
      }
    }
  }
}
