/**
  The classic layout, a tree of splits, saved and restored by splitting one seed
  pane again and again (src/gtk/session.c:1023-1241).  Splitting a pane is
  workspace_split_pane_target (src/gtk/workspace.c:5028-5110).
 */
module SessionLayout {
  import opened Options
  import opened Sequences

  type Pane = nat

  /** Leaves are panes, inner nodes are paned widgets with an identity. */
  datatype Tree =
    | Leaf(pane: Pane)
    | Split(id: nat, vertical: bool, start: Tree, end: Tree)

  /** A saved node: children may be missing, the type may be anything else. */
  datatype SavedLayout =
    | PaneNode(paneId: string)
    | SplitNode(vertical: bool, ratio: Option<real>, start: Option<SavedLayout>, end: Option<SavedLayout>)
    | UnknownNode

  /** The part of a workspace that restoring changes.  `scheduled` holds the
      ratio that a timer will give to each paned widget. */
  datatype Layout = Layout(
    root: Tree,
    panes: seq<Pane>,
    nextPane: Pane,
    nextSplit: nat,
    scheduled: map<nat, real>)

  // ---- trees ----

  function Leaves(t: Tree): (r: seq<Pane>)
    ensures r != []
  {
    match t
    case Leaf(p) => [p]
    case Split(_, _, start, end) => Leaves(start) + Leaves(end)
  }

  /** The tree with `sub` in the place of the leaf of a pane. */
  function ReplaceLeaf(t: Tree, p: Pane, sub: Tree): Tree {
    match t
    case Leaf(q) => if q == p then sub else t
    case Split(id, vertical, start, end) =>
      Split(id, vertical, ReplaceLeaf(start, p, sub), ReplaceLeaf(end, p, sub))
  }

  /** The paned widget that directly holds a pane. */
  function ParentOf(t: Tree, p: Pane): Option<nat> {
    match t
    case Leaf(_) => None
    case Split(id, _, start, end) =>
      if start == Leaf(p) || end == Leaf(p) then Some(id)
      else if ParentOf(start, p).Some? then ParentOf(start, p)
      else ParentOf(end, p)
  }

  // ---- restoring ----

  function Clamp01(r: real): (c: real)
    ensures 0.0 <= c <= 1.0
    ensures 0.0 <= r <= 1.0 ==> c == r
  {
    if r > 1.0 then 1.0 else if r < 0.0 then 0.0 else r
  }

  function RatioOf(ratio: Option<real>): real {
    Clamp01(if ratio.Some? then ratio.value else 0.5)
  }

  /** A ratio outside 0 to 1 is brought to the nearer end; a missing one is one half. */
  lemma RatioIs(ratio: Option<real>)
    ensures ratio.None? ==> RatioOf(ratio) == 0.5
    ensures ratio.Some? && ratio.value <= 0.0 ==> RatioOf(ratio) == 0.0
    ensures ratio.Some? && ratio.value >= 1.0 ==> RatioOf(ratio) == 1.0
    ensures ratio.Some? && 0.0 <= ratio.value <= 1.0 ==> RatioOf(ratio) == ratio.value
  {
  }

  /** Wraps the target in a new split whose start it becomes; the end is a new
      pane, which goes to the end of the pane array. */
  function SplitTarget(s: Layout, target: Pane, vertical: bool): Layout {
    s.(root := ReplaceLeaf(s.root, target, Split(s.nextSplit, vertical, Leaf(target), Leaf(s.nextPane))),
       panes := s.panes + [s.nextPane],
       nextPane := s.nextPane + 1,
       nextSplit := s.nextSplit + 1)
  }

  function Schedule(s: Layout, paned: Option<nat>, ratio: Option<real>): Layout {
    if paned.Some? then s.(scheduled := s.scheduled[paned.value := RatioOf(ratio)]) else s
  }

  /** session_restore_workspace_layout_node: whether it got to the end, and how
      far it got. */
  function RestoreNode(saved: SavedLayout, s: Layout, seed: Pane): (bool, Layout) {
    match saved
    case PaneNode(_) => (true, s)
    case UnknownNode => (false, s)
    case SplitNode(vertical, ratio, start, end) =>
      if start.None? || end.None? || seed !in Leaves(s.root) then (false, s)
      else
        var s1 := SplitTarget(s, seed, vertical);
        var paned := ParentOf(s1.root, seed);
        var (ok2, s2) := RestoreNode(start.value, s1, seed);
        if !ok2 then (false, s2)
        else
          var (ok3, s3) := RestoreNode(end.value, s2, s.nextPane);
          if !ok3 then (false, s3) else (true, Schedule(s3, paned, ratio))
  }

  // ---- what restoring amounts to, without a surrounding tree ----

  datatype Growth = Growth(
    ok: bool,
    tree: Tree,
    created: seq<Pane>,
    nextPane: Pane,
    nextSplit: nat,
    scheduled: map<nat, real>)

  /** The tree that takes the place of the seed. */
  function Grow(saved: SavedLayout, seed: Pane, nextPane: Pane, nextSplit: nat): Growth {
    match saved
    case PaneNode(_) => Growth(true, Leaf(seed), [], nextPane, nextSplit, map[])
    case UnknownNode => Growth(false, Leaf(seed), [], nextPane, nextSplit, map[])
    case SplitNode(vertical, ratio, start, end) =>
      if start.None? || end.None? then Growth(false, Leaf(seed), [], nextPane, nextSplit, map[])
      else
        var a := Grow(start.value, seed, nextPane + 1, nextSplit + 1);
        if !a.ok then
          a.(tree := Split(nextSplit, vertical, a.tree, Leaf(nextPane)), created := [nextPane] + a.created)
        else
          var b := Grow(end.value, nextPane, a.nextPane, a.nextSplit);
          Growth(b.ok, Split(nextSplit, vertical, a.tree, b.tree),
                 [nextPane] + a.created + b.created, b.nextPane, b.nextSplit,
                 if b.ok then (a.scheduled + b.scheduled)[nextSplit := RatioOf(ratio)]
                 else a.scheduled + b.scheduled)
  }

  /** A layout with a growth in the place of one of its leaves. */
  function Plug(s: Layout, seed: Pane, g: Growth): Layout {
    Layout(ReplaceLeaf(s.root, seed, g.tree), s.panes + g.created, g.nextPane, g.nextSplit, s.scheduled + g.scheduled)
  }

  /** Every pane and every paned widget is known by a number of its own. */
  ghost predicate Good(s: Layout) {
    && Distinct(Leaves(s.root))
    && (forall p :: p in Leaves(s.root) ==> p < s.nextPane)
    && (forall k :: k in s.scheduled ==> k < s.nextSplit)
  }

  // ---- replacing leaves ----

  lemma {:induction false} ReplaceAbsent(t: Tree, p: Pane, sub: Tree)
    requires p !in Leaves(t)
    ensures ReplaceLeaf(t, p, sub) == t
  {
    if t.Split? {
      ReplaceAbsent(t.start, p, sub);
      ReplaceAbsent(t.end, p, sub);
    }
  }

  /** Replacing inside what was put into a tree is putting the replaced thing
      into the tree. */
  lemma {:induction false} ReplaceInside(t: Tree, p: Pane, sub: Tree, q: Pane, sub': Tree)
    requires q == p || q !in Leaves(t)
    ensures ReplaceLeaf(ReplaceLeaf(t, p, sub), q, sub') == ReplaceLeaf(t, p, ReplaceLeaf(sub, q, sub'))
  {
    if t.Split? {
      ReplaceInside(t.start, p, sub, q, sub');
      ReplaceInside(t.end, p, sub, q, sub');
    }
  }

  /** Where the leaf of a pane is among the others. */
  lemma {:induction false} LeavesAround(t: Tree, p: Pane, sub: Tree) returns (a: seq<Pane>, b: seq<Pane>)
    requires Distinct(Leaves(t)) && p in Leaves(t)
    ensures Leaves(t) == a + [p] + b
    ensures Leaves(ReplaceLeaf(t, p, sub)) == a + Leaves(sub) + b
  {
    match t
    case Leaf(_) =>
      a, b := [], [];
    case Split(_, _, start, end) =>
      var left, right := Leaves(start), Leaves(end);
      DistinctParts(left, right);
      if p in left {
        ReplaceAbsent(end, p, sub);
        a, b := LeavesAround(start, p, sub);
        Sandwich([], a, [p], b, right);
        Sandwich([], a, Leaves(sub), b, right);
        b := b + right;
      } else {
        ReplaceAbsent(start, p, sub);
        a, b := LeavesAround(end, p, sub);
        Sandwich(left, a, [p], b, []);
        Sandwich(left, a, Leaves(sub), b, []);
        a := left + a;
      }
  }

  lemma Sandwich(x: seq<Pane>, a: seq<Pane>, m: seq<Pane>, b: seq<Pane>, y: seq<Pane>)
    ensures x + (a + m + b) + y == (x + a) + m + (b + y)
    ensures x == [] ==> (a + m + b) + y == a + m + (b + y)
    ensures y == [] ==> x + (a + m + b) == (x + a) + m + b
  {
    assert x + (a + m + b) + y == (x + a) + m + (b + y);
    assert x == [] ==> x + (a + m + b) == a + m + b && x + a == a;
    assert y == [] ==> x + (a + m + b) + y == x + (a + m + b) && b + y == b;
  }

  /** After a split the new paned widget is what holds the target. */
  lemma {:induction false} ParentAfterSplit(t: Tree, p: Pane, id: nat, vertical: bool, added: Pane)
    requires Distinct(Leaves(t)) && p in Leaves(t) && added != p
    ensures ParentOf(ReplaceLeaf(t, p, Split(id, vertical, Leaf(p), Leaf(added))), p) == Some(id)
  {
    if t.Split? {
      var sub := Split(id, vertical, Leaf(p), Leaf(added));
      DistinctParts(Leaves(t.start), Leaves(t.end));
      if p in Leaves(t.start) {
        ParentAfterSplit(t.start, p, id, vertical, added);
        ReplaceAbsent(t.end, p, sub);
        assert t.end != Leaf(p);
        ReplacedIsNoLeaf(t.start, p, sub);
      } else {
        ParentAfterSplit(t.end, p, id, vertical, added);
        ReplaceAbsent(t.start, p, sub);
        assert t.start != Leaf(p);
        NoParent(t.start, p);
        ReplacedIsNoLeaf(t.end, p, sub);
      }
    }
  }

  lemma ReplacedIsNoLeaf(t: Tree, p: Pane, sub: Tree)
    requires p in Leaves(t) && sub.Split?
    ensures ReplaceLeaf(t, p, sub).Split?
  {
  }

  lemma {:induction false} NoParent(t: Tree, p: Pane)
    requires p !in Leaves(t)
    ensures ParentOf(t, p) == None
  {
    if t.Split? {
      NoParent(t.start, p);
      NoParent(t.end, p);
      assert Leaves(Leaf(p)) == [p];
    }
  }

  // ---- growths ----

  /** The numbers a growth uses are the next free ones, handed out in order. */
  lemma {:induction false} GrowNumbers(saved: SavedLayout, seed: Pane, nextPane: Pane, nextSplit: nat)
    ensures var g := Grow(saved, seed, nextPane, nextSplit);
            && nextSplit <= g.nextSplit
            && g.nextPane == nextPane + |g.created|
            && (forall i :: 0 <= i < |g.created| ==> g.created[i] == nextPane + i)
            && (forall k :: k in g.scheduled ==> nextSplit <= k < g.nextSplit)
  {
    if saved.SplitNode? && saved.start.Some? && saved.end.Some? {
      var a := Grow(saved.start.value, seed, nextPane + 1, nextSplit + 1);
      GrowNumbers(saved.start.value, seed, nextPane + 1, nextSplit + 1);
      if a.ok {
        GrowNumbers(saved.end.value, nextPane, a.nextPane, a.nextSplit);
      }
    }
  }

  /** The seed stays leftmost, and the other leaves are the panes created. */
  lemma {:induction false} GrowMembers(saved: SavedLayout, seed: Pane, nextPane: Pane, nextSplit: nat)
    ensures var g := Grow(saved, seed, nextPane, nextSplit);
            && nextPane <= g.nextPane
            && Leaves(g.tree)[0] == seed
            && forall x :: x in Leaves(g.tree) <==> x == seed || nextPane <= x < g.nextPane
  {
    if saved.SplitNode? && saved.start.Some? && saved.end.Some? {
      var a := Grow(saved.start.value, seed, nextPane + 1, nextSplit + 1);
      GrowMembers(saved.start.value, seed, nextPane + 1, nextSplit + 1);
      if a.ok {
        GrowMembers(saved.end.value, nextPane, a.nextPane, a.nextSplit);
      }
    }
  }

  lemma {:induction false} GrowDistinct(saved: SavedLayout, seed: Pane, nextPane: Pane, nextSplit: nat)
    requires seed < nextPane
    ensures Distinct(Leaves(Grow(saved, seed, nextPane, nextSplit).tree))
  {
    if saved.SplitNode? && saved.start.Some? && saved.end.Some? {
      var a := Grow(saved.start.value, seed, nextPane + 1, nextSplit + 1);
      GrowDistinct(saved.start.value, seed, nextPane + 1, nextSplit + 1);
      GrowMembers(saved.start.value, seed, nextPane + 1, nextSplit + 1);
      if a.ok {
        GrowDistinct(saved.end.value, nextPane, a.nextPane, a.nextSplit);
        GrowMembers(saved.end.value, nextPane, a.nextPane, a.nextSplit);
        DistinctParts(Leaves(a.tree), Leaves(Grow(saved.end.value, nextPane, a.nextPane, a.nextSplit).tree));
      } else {
        DistinctParts(Leaves(a.tree), [nextPane]);
      }
    }
  }

  /** Whatever was saved, and whether or not the restore got to its end: the
      leaves that grow are the seed and the panes created for it, each once. */
  lemma GrowLeaves(saved: SavedLayout, seed: Pane, nextPane: Pane, nextSplit: nat)
    requires seed < nextPane
    ensures var g := Grow(saved, seed, nextPane, nextSplit);
            && Leaves(g.tree)[0] == seed && Distinct(Leaves(g.tree))
            && multiset(Leaves(g.tree)) == multiset([seed] + g.created)
  {
    var g := Grow(saved, seed, nextPane, nextSplit);
    GrowNumbers(saved, seed, nextPane, nextSplit);
    GrowMembers(saved, seed, nextPane, nextSplit);
    GrowDistinct(saved, seed, nextPane, nextSplit);
    forall x | nextPane <= x < g.nextPane ensures x in g.created {
      assert g.created[x - nextPane] == x;
    }
    SameElementsPermute(Leaves(g.tree), [seed] + g.created);
  }
}
