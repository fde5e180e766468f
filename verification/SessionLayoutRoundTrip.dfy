/** What restoring a classic layout gives back, and what it does not. */
module SessionLayoutRoundTrip {
  import opened Options
  import opened Sequences
  import opened SessionLayout
  import PaneIds

  // ---- locality: restoring into a leaf of a larger tree ----

  /** New panes may take their place next to an old one. */
  lemma PlugLeaves(t: Tree, p: Pane, sub: Tree, bound: Pane)
    requires Distinct(Leaves(t)) && p in Leaves(t) && forall x :: x in Leaves(t) ==> x < bound
    requires Distinct(Leaves(sub)) && p in Leaves(sub)
    requires forall x :: x in Leaves(sub) ==> x == p || x >= bound
    ensures Distinct(Leaves(ReplaceLeaf(t, p, sub)))
    ensures forall x :: x in Leaves(ReplaceLeaf(t, p, sub)) <==> x in Leaves(t) || x in Leaves(sub)
  {
    var a, b := LeavesAround(t, p, sub);
    DistinctMiddle(a, [p], b);
    assert p in [p] && forall x :: x in a || x in b ==> x in Leaves(t);
    DistinctParts(a, b);
    DistinctParts(a, Leaves(sub));
    DistinctParts(a + Leaves(sub), b);
  }

  lemma SplitTargetGood(s: Layout, seed: Pane, vertical: bool)
    requires Good(s) && seed in Leaves(s.root)
    ensures var s1 := SplitTarget(s, seed, vertical);
            Good(s1) && seed in Leaves(s1.root) && s.nextPane in Leaves(s1.root)
  {
    var sub := Split(s.nextSplit, vertical, Leaf(seed), Leaf(s.nextPane));
    assert Leaves(sub) == [seed, s.nextPane];
    PlugLeaves(s.root, seed, sub, s.nextPane);
  }

  lemma PlugGood(saved: SavedLayout, s: Layout, seed: Pane)
    requires Good(s) && seed in Leaves(s.root)
    ensures var g := Grow(saved, seed, s.nextPane, s.nextSplit);
            Good(Plug(s, seed, g)) && forall p :: p in Leaves(s.root) ==> p in Leaves(ReplaceLeaf(s.root, seed, g.tree))
  {
    var g := Grow(saved, seed, s.nextPane, s.nextSplit);
    GrowNumbers(saved, seed, s.nextPane, s.nextSplit);
    GrowMembers(saved, seed, s.nextPane, s.nextSplit);
    GrowDistinct(saved, seed, s.nextPane, s.nextSplit);
    PlugLeaves(s.root, seed, g.tree, s.nextPane);
  }

  /** Both halves of a split grow where they belong. */
  lemma PlugTwice(root: Tree, seed: Pane, id: nat, vertical: bool, added: Pane, a: Tree, b: Tree)
    requires seed != added && added !in Leaves(root) && added !in Leaves(a)
    ensures ReplaceLeaf(ReplaceLeaf(ReplaceLeaf(root, seed, Split(id, vertical, Leaf(seed), Leaf(added))), seed, a), added, b)
            == ReplaceLeaf(root, seed, Split(id, vertical, a, b))
    ensures ReplaceLeaf(ReplaceLeaf(root, seed, Split(id, vertical, Leaf(seed), Leaf(added))), seed, a)
            == ReplaceLeaf(root, seed, Split(id, vertical, a, Leaf(added)))
  {
    ReplaceInside(root, seed, Split(id, vertical, Leaf(seed), Leaf(added)), seed, a);
    ReplaceInside(root, seed, Split(id, vertical, a, Leaf(added)), added, b);
    ReplaceAbsent(a, added, b);
  }

  lemma PlugStart(s: Layout, seed: Pane, vertical: bool, a: Growth)
    requires seed != s.nextPane && s.nextPane !in Leaves(s.root) && s.nextPane !in Leaves(a.tree)
    ensures Plug(SplitTarget(s, seed, vertical), seed, a) ==
            Plug(s, seed, a.(tree := Split(s.nextSplit, vertical, a.tree, Leaf(s.nextPane)), created := [s.nextPane] + a.created))
  {
    PlugTwice(s.root, seed, s.nextSplit, vertical, s.nextPane, a.tree, Leaf(s.nextPane));
    ConcatAssociates(s.panes, [s.nextPane], a.created);
  }

  lemma PlugBoth(s: Layout, seed: Pane, vertical: bool, a: Growth, b: Growth)
    requires seed != s.nextPane && s.nextPane !in Leaves(s.root) && s.nextPane !in Leaves(a.tree)
    ensures Plug(Plug(SplitTarget(s, seed, vertical), seed, a), s.nextPane, b) ==
            Plug(s, seed, Growth(b.ok, Split(s.nextSplit, vertical, a.tree, b.tree), [s.nextPane] + a.created + b.created,
                                 b.nextPane, b.nextSplit, a.scheduled + b.scheduled))
  {
    PlugTwice(s.root, seed, s.nextSplit, vertical, s.nextPane, a.tree, b.tree);
    ConcatAssociates(s.panes, [s.nextPane], a.created);
    ConcatAssociates(s.panes, [s.nextPane] + a.created, b.created);
  }

  lemma PlugSchedules(s: Layout, seed: Pane, g: Growth, id: nat, ratio: Option<real>)
    ensures Schedule(Plug(s, seed, g), Some(id), ratio) ==
            Plug(s, seed, g.(scheduled := g.scheduled[id := RatioOf(ratio)]))
  {
  }

  lemma BeforeTheHalves(saved: SavedLayout, s: Layout, seed: Pane, vertical: bool)
    requires Good(s) && seed in Leaves(s.root)
    ensures var s1 := SplitTarget(s, seed, vertical);
            var a := Grow(saved, seed, s1.nextPane, s1.nextSplit);
            && Good(s1) && seed in Leaves(s1.root)
            && ParentOf(s1.root, seed) == Some(s.nextSplit)
            && Good(Plug(s1, seed, a)) && s.nextPane in Leaves(Plug(s1, seed, a).root)
            && s.nextPane !in Leaves(s.root) && s.nextPane !in Leaves(a.tree)
  {
    var s1 := SplitTarget(s, seed, vertical);
    SplitTargetGood(s, seed, vertical);
    ParentAfterSplit(s.root, seed, s.nextSplit, vertical, s.nextPane);
    PlugGood(saved, s1, seed);
    GrownAvoids(saved, seed, s1.nextPane, s1.nextSplit, s.nextPane);
  }

  /** Restoring a node into one leaf of a larger tree does to that leaf what
      restoring it alone would do, and nothing to the rest of the tree. */
  lemma {:induction false} RestoreIsLocal(saved: SavedLayout, s: Layout, seed: Pane)
    requires Good(s) && seed in Leaves(s.root)
    ensures var g := Grow(saved, seed, s.nextPane, s.nextSplit);
            RestoreNode(saved, s, seed) == (g.ok, Plug(s, seed, g))
    decreases saved
  {
    if saved.SplitNode? && saved.start.Some? && saved.end.Some? {
      var s1 := SplitTarget(s, seed, saved.vertical);
      var a := Grow(saved.start.value, seed, s1.nextPane, s1.nextSplit);
      BeforeTheHalves(saved.start.value, s, seed, saved.vertical);
      RestoreIsLocal(saved.start.value, s1, seed);
      if a.ok {
        var b := Grow(saved.end.value, s.nextPane, a.nextPane, a.nextSplit);
        RestoreIsLocal(saved.end.value, Plug(s1, seed, a), s.nextPane);
        PlugBoth(s, seed, saved.vertical, a, b);
        PlugSchedules(s, seed, Growth(b.ok, Split(s.nextSplit, saved.vertical, a.tree, b.tree),
                                      [s.nextPane] + a.created + b.created, b.nextPane, b.nextSplit,
                                      a.scheduled + b.scheduled), s.nextSplit, saved.ratio);
      } else {
        PlugStart(s, seed, saved.vertical, a);
      }
    } else {
      ReplaceBySelf(s.root, seed);
      assert s.panes + [] == s.panes;
      assert s.scheduled + map[] == s.scheduled;
    }
  }

  lemma {:induction false} ReplaceBySelf(t: Tree, p: Pane)
    ensures ReplaceLeaf(t, p, Leaf(p)) == t
  {
    if t.Split? {
      ReplaceBySelf(t.start, p);
      ReplaceBySelf(t.end, p);
    }
  }

  lemma GrownAvoids(saved: SavedLayout, seed: Pane, nextPane: Pane, nextSplit: nat, p: Pane)
    requires p != seed && p < nextPane
    ensures p !in Leaves(Grow(saved, seed, nextPane, nextSplit).tree)
  {
    GrowMembers(saved, seed, nextPane, nextSplit);
  }

  /** Whatever the file says, a restore loses no pane and doubles none: the
      leaves remain the panes of the pane array. */
  lemma RestoreConservesPanes(saved: SavedLayout, s: Layout, seed: Pane)
    requires Good(s) && seed in Leaves(s.root) && multiset(Leaves(s.root)) == multiset(s.panes)
    ensures var s' := RestoreNode(saved, s, seed).1;
            && multiset(Leaves(s'.root)) == multiset(s'.panes)
            && Distinct(Leaves(s'.root))
            && s.panes <= s'.panes
  {
    var g := Grow(saved, seed, s.nextPane, s.nextSplit);
    RestoreIsLocal(saved, s, seed);
    PlugGood(saved, s, seed);
    GrowLeaves(saved, seed, s.nextPane, s.nextSplit);
    var a, b := LeavesAround(s.root, seed, g.tree);
    CountsAround(a, seed, b, Leaves(g.tree), s.panes, g.created);
  }

  lemma CountsAround(a: seq<Pane>, p: Pane, b: seq<Pane>, m: seq<Pane>, panes: seq<Pane>, created: seq<Pane>)
    requires multiset(a + [p] + b) == multiset(panes) && multiset(m) == multiset([p] + created)
    ensures multiset(a + m + b) == multiset(panes + created)
  {
    assert multiset(a + [p] + b) == multiset(a) + multiset([p]) + multiset(b);
    assert multiset(a + m + b) == multiset(a) + multiset(m) + multiset(b);
    assert multiset([p] + created) == multiset([p]) + multiset(created);
  }

  // ---- shape, orientation and ratios ----

  /** Every split has both children and every node is a pane or a split. */
  predicate Full(saved: SavedLayout) {
    match saved
    case PaneNode(_) => true
    case UnknownNode => false
    case SplitNode(_, _, start, end) => start.Some? && end.Some? && Full(start.value) && Full(end.value)
  }

  /** The tree has the saved shape and orientations, and each of its paned
      widgets is due to get its saved ratio. */
  predicate Mirrors(t: Tree, saved: SavedLayout, scheduled: map<nat, real>) {
    match t
    case Leaf(_) => saved.PaneNode?
    case Split(id, vertical, start, end) =>
      && saved.SplitNode? && saved.start.Some? && saved.end.Some?
      && vertical == saved.vertical
      && id in scheduled && scheduled[id] == RatioOf(saved.ratio)
      && Mirrors(start, saved.start.value, scheduled)
      && Mirrors(end, saved.end.value, scheduled)
  }

  ghost predicate Extends(m': map<nat, real>, m: map<nat, real>) {
    forall k :: k in m ==> k in m' && m'[k] == m[k]
  }

  lemma {:induction false} MirrorsExtended(t: Tree, saved: SavedLayout, m: map<nat, real>, m': map<nat, real>)
    requires Mirrors(t, saved, m) && Extends(m', m)
    ensures Mirrors(t, saved, m')
  {
    if t.Split? {
      MirrorsExtended(t.start, saved.start.value, m, m');
      MirrorsExtended(t.end, saved.end.value, m, m');
    }
  }

  lemma {:induction false} GrowMirrors(saved: SavedLayout, seed: Pane, nextPane: Pane, nextSplit: nat)
    ensures var g := Grow(saved, seed, nextPane, nextSplit);
            (g.ok <==> Full(saved)) && (g.ok ==> Mirrors(g.tree, saved, g.scheduled))
  {
    if saved.SplitNode? && saved.start.Some? && saved.end.Some? {
      var g := Grow(saved, seed, nextPane, nextSplit);
      var a := Grow(saved.start.value, seed, nextPane + 1, nextSplit + 1);
      GrowMirrors(saved.start.value, seed, nextPane + 1, nextSplit + 1);
      GrowNumbers(saved.start.value, seed, nextPane + 1, nextSplit + 1);
      if a.ok {
        var b := Grow(saved.end.value, nextPane, a.nextPane, a.nextSplit);
        GrowMirrors(saved.end.value, nextPane, a.nextPane, a.nextSplit);
        GrowNumbers(saved.end.value, nextPane, a.nextPane, a.nextSplit);
        if b.ok {
          MirrorsExtended(a.tree, saved.start.value, a.scheduled, g.scheduled);
          MirrorsExtended(b.tree, saved.end.value, b.scheduled, g.scheduled);
        }
      }
    }
  }

  /** A restore into the one pane of a new workspace succeeds exactly when the
      saved tree is full, and then rebuilds it. */
  lemma RestoreRebuilds(saved: SavedLayout, seed: Pane, nextPane: Pane, nextSplit: nat)
    requires seed < nextPane
    ensures var (ok, s) := RestoreNode(saved, Layout(Leaf(seed), [seed], nextPane, nextSplit, map[]), seed);
            (ok <==> Full(saved)) && (ok ==> Mirrors(s.root, saved, s.scheduled))
  {
    var s := Layout(Leaf(seed), [seed], nextPane, nextSplit, map[]);
    RestoreIsLocal(saved, s, seed);
    GrowMirrors(saved, seed, nextPane, nextSplit);
    var g := Grow(saved, seed, nextPane, nextSplit);
    assert s.scheduled + g.scheduled == g.scheduled;
  }

  // ---- saving ----

  function NameOf(names: map<Pane, string>, p: Pane): string {
    if p in names then names[p] else ""
  }

  function SaveTree(t: Tree, names: map<Pane, string>, ratios: map<nat, real>): SavedLayout {
    match t
    case Leaf(p) => PaneNode(NameOf(names, p))
    case Split(id, vertical, start, end) =>
      SplitNode(vertical, Some(if id in ratios then ratios[id] else 0.5),
                Some(SaveTree(start, names, ratios)), Some(SaveTree(end, names, ratios)))
  }

  /** Two trees of one shape, where what is scheduled for the splits of the
      second are the ratios of the splits of the first. */
  predicate SameShape(t: Tree, ratios: map<nat, real>, t': Tree, scheduled: map<nat, real>) {
    match t
    case Leaf(_) => t'.Leaf?
    case Split(id, vertical, start, end) =>
      && t'.Split? && t'.vertical == vertical
      && id in ratios && t'.id in scheduled && scheduled[t'.id] == ratios[id]
      && SameShape(start, ratios, t'.start, scheduled)
      && SameShape(end, ratios, t'.end, scheduled)
  }

  /** Every paned widget has a ratio, as SessionDividers.PanedRatio computes it. */
  predicate Measured(t: Tree, ratios: map<nat, real>) {
    t.Split? ==> t.id in ratios && 0.0 <= ratios[t.id] <= 1.0 && Measured(t.start, ratios) && Measured(t.end, ratios)
  }

  lemma {:induction false} SavedTreeIsFull(t: Tree, names: map<Pane, string>, ratios: map<nat, real>)
    ensures Full(SaveTree(t, names, ratios))
  {
    if t.Split? {
      SavedTreeIsFull(t.start, names, ratios);
      SavedTreeIsFull(t.end, names, ratios);
    }
  }

  lemma {:induction false} MirrorOfSaved(t: Tree, names: map<Pane, string>, ratios: map<nat, real>, t': Tree, scheduled: map<nat, real>)
    requires Measured(t, ratios) && Mirrors(t', SaveTree(t, names, ratios), scheduled)
    ensures SameShape(t, ratios, t', scheduled)
  {
    if t.Split? {
      MirrorOfSaved(t.start, names, ratios, t'.start, scheduled);
      MirrorOfSaved(t.end, names, ratios, t'.end, scheduled);
    }
  }

  /** Saving any tree and restoring it into one pane: the same shape, the same
      orientations, and every ratio on its way to the split it came from. */
  lemma SaveRestoreShape(t: Tree, names: map<Pane, string>, ratios: map<nat, real>, seed: Pane, nextPane: Pane, nextSplit: nat)
    requires Measured(t, ratios) && seed < nextPane
    ensures var (ok, s) := RestoreNode(SaveTree(t, names, ratios), Layout(Leaf(seed), [seed], nextPane, nextSplit, map[]), seed);
            ok && SameShape(t, ratios, s.root, s.scheduled)
  {
    var saved := SaveTree(t, names, ratios);
    SavedTreeIsFull(t, names, ratios);
    RestoreRebuilds(saved, seed, nextPane, nextSplit);
    var s := RestoreNode(saved, Layout(Leaf(seed), [seed], nextPane, nextSplit, map[]), seed).1;
    MirrorOfSaved(t, names, ratios, s.root, s.scheduled);
  }

  // ---- which pane ends up where ----

  function NamesOf(ps: seq<Pane>, names: map<Pane, string>): (r: seq<string>)
    ensures |r| == |ps|
    ensures forall i :: 0 <= i < |ps| ==> r[i] == NameOf(names, ps[i])
  {
    seq(|ps|, i requires 0 <= i < |ps| => NameOf(names, ps[i]))
  }

  lemma NamesConcat(a: seq<Pane>, b: seq<Pane>, names: map<Pane, string>)
    ensures NamesOf(a + b, names) == NamesOf(a, names) + NamesOf(b, names)
  {
  }

  /** The pane ids of a saved tree from left to right. */
  function SavedNames(saved: SavedLayout): seq<string>
    requires Full(saved)
  {
    match saved
    case PaneNode(id) => [id]
    case SplitNode(_, _, start, end) => SavedNames(start.value) + SavedNames(end.value)
  }

  function FirstName(saved: SavedLayout): string
    requires Full(saved)
  {
    match saved
    case PaneNode(id) => id
    case SplitNode(_, _, start, _) => FirstName(start.value)
  }

  function LaterNames(saved: SavedLayout): seq<string>
    requires Full(saved)
  {
    match saved
    case PaneNode(_) => []
    case SplitNode(_, _, start, end) =>
      [FirstName(end.value)] + LaterNames(start.value) + LaterNames(end.value)
  }

  /** The ids of the leaves in the order in which a restore creates them: each
      split makes its end before anything inside its start is split. */
  function CreationOrder(saved: SavedLayout): seq<string>
    requires Full(saved)
  {
    [FirstName(saved)] + LaterNames(saved)
  }

  lemma {:induction false} GrowSizes(saved: SavedLayout, seed: Pane, nextPane: Pane, nextSplit: nat)
    requires Full(saved)
    ensures var g := Grow(saved, seed, nextPane, nextSplit);
            && g.ok
            && |Leaves(g.tree)| == |SavedNames(saved)| == 1 + |g.created|
            && |g.created| == |LaterNames(saved)|
  {
    if saved.SplitNode? {
      var a := Grow(saved.start.value, seed, nextPane + 1, nextSplit + 1);
      GrowSizes(saved.start.value, seed, nextPane + 1, nextSplit + 1);
      GrowSizes(saved.end.value, nextPane, a.nextPane, a.nextSplit);
    }
  }

  lemma EqualParts(a: seq<string>, b: seq<string>, c: seq<string>, d: seq<string>)
    requires |a| == |c|
    ensures a + b == c + d <==> a == c && b == d
  {
    if a + b == c + d {
      assert a == (a + b)[..|a|] == (c + d)[..|c|] == c;
      assert b == (a + b)[|a|..] == (c + d)[|c|..] == d;
    }
  }

  /** The leaves carry the saved names exactly when the names went to the panes
      in the order of their creation. */
  lemma {:induction false} GrowNames(saved: SavedLayout, seed: Pane, nextPane: Pane, nextSplit: nat, names: map<Pane, string>)
    requires Full(saved)
    ensures var g := Grow(saved, seed, nextPane, nextSplit);
            NamesOf(Leaves(g.tree), names) == SavedNames(saved) <==>
            NameOf(names, seed) == FirstName(saved) && NamesOf(g.created, names) == LaterNames(saved)
  {
    assert NamesOf([seed], names) == [NameOf(names, seed)] && NamesOf([nextPane], names) == [NameOf(names, nextPane)];
    if saved.SplitNode? {
      var a := Grow(saved.start.value, seed, nextPane + 1, nextSplit + 1);
      var b := Grow(saved.end.value, nextPane, a.nextPane, a.nextSplit);
      GrowSizes(saved.start.value, seed, nextPane + 1, nextSplit + 1);
      GrowSizes(saved.end.value, nextPane, a.nextPane, a.nextSplit);
      GrowNames(saved.start.value, seed, nextPane + 1, nextSplit + 1, names);
      GrowNames(saved.end.value, nextPane, a.nextPane, a.nextSplit, names);
      NamesConcat(Leaves(a.tree), Leaves(b.tree), names);
      EqualParts(NamesOf(Leaves(a.tree), names), NamesOf(Leaves(b.tree), names),
                 SavedNames(saved.start.value), SavedNames(saved.end.value));
      NamesConcat([nextPane] + a.created, b.created, names);
      NamesConcat([nextPane], a.created, names);
      EqualParts(NamesOf([nextPane] + a.created, names), NamesOf(b.created, names),
                 [FirstName(saved.end.value)] + LaterNames(saved.start.value), LaterNames(saved.end.value));
      EqualParts(NamesOf([nextPane], names), NamesOf(a.created, names),
                 [FirstName(saved.end.value)], LaterNames(saved.start.value));
    }
  }

  /** The program gives the saved ids (and the tabs that go with them) to the
      panes of the pane array one by one.  So, for every tree: a restored leaf
      is the pane that was saved there, for all leaves, exactly when the saved
      pane array had the panes in creation order. */
  lemma LeavesKeepTheirPanes(saved: SavedLayout, seed: Pane, nextPane: Pane, nextSplit: nat, names: map<Pane, string>, savedOrder: seq<string>)
    requires Full(saved) && seed < nextPane
    requires NamesOf(RestoreNode(saved, Layout(Leaf(seed), [seed], nextPane, nextSplit, map[]), seed).1.panes, names) == savedOrder
    ensures var s := RestoreNode(saved, Layout(Leaf(seed), [seed], nextPane, nextSplit, map[]), seed).1;
            NamesOf(Leaves(s.root), names) == SavedNames(saved) <==> savedOrder == CreationOrder(saved)
  {
    var s, g := Layout(Leaf(seed), [seed], nextPane, nextSplit, map[]), Grow(saved, seed, nextPane, nextSplit);
    RestoreIsLocal(saved, s, seed);
    GrowNames(saved, seed, nextPane, nextSplit, names);
    NamesConcat([seed], g.created, names);
    EqualParts(NamesOf([seed], names), NamesOf(g.created, names), [FirstName(saved)], LaterNames(saved));
  }

  function Values(ids: seq<Option<string>>): (r: seq<string>)
    requires forall i :: 0 <= i < |ids| ==> ids[i].Some?
    ensures |r| == |ids|
    ensures forall i :: 0 <= i < |ids| ==> r[i] == ids[i].value
  {
    seq(|ids|, i requires 0 <= i < |ids| => ids[i].value)
  }

  /** The same for the ids that the program assigns after a restore, when the
      file has a different one for every pane. */
  lemma AssignedIdsFollowCreation(saved: SavedLayout, seed: Pane, nextPane: Pane, nextSplit: nat,
                                  savedIds: seq<Option<string>>, was: seq<string>, next: nat, names: map<Pane, string>)
    requires Full(saved) && seed < nextPane
    requires Distinct(savedIds) && forall i :: 0 <= i < |savedIds| ==> savedIds[i].Some? && savedIds[i].value != ""
    requires |was| == |savedIds|
    requires NamesOf(RestoreNode(saved, Layout(Leaf(seed), [seed], nextPane, nextSplit, map[]), seed).1.panes, names) ==
             PaneIds.Assigned(savedIds, was, next, |was|).ids
    ensures var s := RestoreNode(saved, Layout(Leaf(seed), [seed], nextPane, nextSplit, map[]), seed).1;
            NamesOf(Leaves(s.root), names) == SavedNames(saved) <==> Values(savedIds) == CreationOrder(saved)
  {
    PaneIds.SavedOrderIsAssigned(savedIds, was, next, |was|);
    assert Values(savedIds) == PaneIds.Assigned(savedIds, was, next, |was|).ids;
    LeavesKeepTheirPanes(saved, seed, nextPane, nextSplit, names, Values(savedIds));
  }

  /** It does not always have them so.  Split the only pane, then the new one,
      then the first again: a restore, which gives the four ids to its panes in
      the order of the array, exchanges the last two. */
  lemma RestoreCanSwapPanes()
    ensures var names := map[0 := "a", 1 := "b", 2 := "c", 3 := "d"];
            var s := FourPanes();
            var saved := SaveTree(s.root, names, map[]);
            var restored := RestoreNode(saved, Layout(Leaf(0), [0], 1, 0, map[]), 0).1;
            && Full(saved)
            && CreationOrder(saved) == ["a", "b", "d", "c"]
            && NamesOf(s.panes, names) == NamesOf(restored.panes, names) == ["a", "b", "c", "d"]
            && NamesOf(Leaves(s.root), names) == ["a", "d", "b", "c"]
            && NamesOf(Leaves(restored.root), names) == ["a", "c", "b", "d"]
  {
    var names := map[0 := "a", 1 := "b", 2 := "c", 3 := "d"];
    var s := FourPanes();
    FourPanesAre();
    var saved := SaveTree(s.root, names, map[]);
    SavedTreeIsFull(s.root, names, map[]);
    var left, right := saved.start.value, saved.end.value;
    var restored := RestoreOfFour(saved, left.start.value, left.end.value, right.start.value, right.end.value);
    NamesOfFour(0, 1, 2, 3, names);
    NamesOfFour(0, 3, 1, 2, names);
    NamesOfFour(0, 2, 1, 3, names);
  }

  function FourPanes(): Layout {
    SplitTarget(SplitTarget(SplitTarget(Layout(Leaf(0), [0], 1, 0, map[]), 0, false), 1, false), 0, false)
  }

  lemma FourPanesAre()
    ensures FourPanes().root == Split(0, false, Split(2, false, Leaf(0), Leaf(3)), Split(1, false, Leaf(1), Leaf(2)))
    ensures FourPanes().panes == [0, 1, 2, 3] && Leaves(FourPanes().root) == [0, 3, 1, 2]
  {
    var s1 := SplitTarget(Layout(Leaf(0), [0], 1, 0, map[]), 0, false);
    assert s1.root == Split(0, false, Leaf(0), Leaf(1));
    var s2 := SplitTarget(s1, 1, false);
    assert s2.root == Split(0, false, Leaf(0), Split(1, false, Leaf(1), Leaf(2)));
  }

  lemma NamesOfFour(p: Pane, q: Pane, r: Pane, t: Pane, names: map<Pane, string>)
    requires p in names && q in names && r in names && t in names
    ensures NamesOf([p, q, r, t], names) == [names[p], names[q], names[r], names[t]]
  {
  }

  /** Two splits side by side: the order of creation, and what is restored. */
  lemma RestoreOfFour(saved: SavedLayout, a: SavedLayout, d: SavedLayout, b: SavedLayout, c: SavedLayout)
      returns (restored: Layout)
    requires Full(saved) && saved.SplitNode? && saved.start.Some? && saved.end.Some?
    requires IsPair(saved.start.value, a, d) && IsPair(saved.end.value, b, c)
    ensures restored == RestoreNode(saved, Layout(Leaf(0), [0], 1, 0, map[]), 0).1
    ensures CreationOrder(saved) == [a.paneId, b.paneId, d.paneId, c.paneId]
    ensures restored.panes == [0, 1, 2, 3] && Leaves(restored.root) == [0, 2, 1, 3]
  {
    var s0 := Layout(Leaf(0), [0], 1, 0, map[]);
    restored := RestoreNode(saved, s0, 0).1;
    RestoreIsLocal(saved, s0, 0);
    GrowPair(saved.start.value, a, d, 0, 2, 1);
    GrowPair(saved.end.value, b, c, 1, 3, 2);
    var g := Grow(saved, 0, 1, 0);
    assert g.created == [1, 2, 3];
    assert Leaves(g.tree) == [0, 2] + [1, 3];
  }

  ghost predicate IsPair(saved: SavedLayout, a: SavedLayout, b: SavedLayout) {
    && saved.SplitNode? && a.PaneNode? && b.PaneNode?
    && saved.start == Some(a) && saved.end == Some(b)
  }

  lemma GrowPair(saved: SavedLayout, a: SavedLayout, b: SavedLayout, seed: Pane, nextPane: Pane, nextSplit: nat)
    requires IsPair(saved, a, b)
    ensures var g := Grow(saved, seed, nextPane, nextSplit);
            && g.ok && Leaves(g.tree) == [seed, nextPane] && g.created == [nextPane]
            && g.nextPane == nextPane + 1 && g.nextSplit == nextSplit + 1
    ensures FirstName(saved) == a.paneId && LaterNames(saved) == [b.paneId]
  {
    assert Grow(a, seed, nextPane + 1, nextSplit + 1) == Growth(true, Leaf(seed), [], nextPane + 1, nextSplit + 1, map[]);
    assert Grow(b, nextPane, nextPane + 1, nextSplit + 1) == Growth(true, Leaf(nextPane), [], nextPane + 1, nextSplit + 1, map[]);
    assert Leaves(Leaf(seed)) + Leaves(Leaf(nextPane)) == [seed, nextPane];
  }
}
