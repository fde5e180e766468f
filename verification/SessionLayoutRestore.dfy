/**
  Restoring a classic layout in place, as session.c does it
  (src/gtk/session.c:1173-1241): a recursive procedure that splits panes of the
  workspace it works on.
 */
module SessionLayoutRestore {
  import opened Options
  import opened SessionLayout

  class ClassicWorkspace {
    var root: Tree
    var paneNotebooks: seq<Pane>
    var nextPane: Pane
    var nextSplit: nat
    var scheduled: map<nat, real>

    constructor (first: Pane, nextPane: Pane)
      ensures Val() == Layout(Leaf(first), [first], nextPane, 0, map[])
    {
      root := Leaf(first);
      paneNotebooks := [first];
      this.nextPane := nextPane;
      nextSplit := 0;
      scheduled := map[];
    }

    ghost function Val(): Layout
      reads this
    {
      Layout(root, paneNotebooks, nextPane, nextSplit, scheduled)
    }

    /** workspace_split_pane_target; None when the target is not in the layout. */
    method SplitPaneTarget(target: Pane, vertical: bool) returns (created: Option<Pane>)
      modifies this
      ensures created == if target in Leaves(old(root)) then Some(old(nextPane)) else None
      ensures Val() == if created.Some? then SplitTarget(old(Val()), target, vertical) else old(Val())
    {
      if target !in Leaves(root) {
        return None;
      }
      var added := nextPane;
      nextPane := nextPane + 1;
      paneNotebooks := paneNotebooks + [added];
      root := ReplaceLeaf(root, target, Split(nextSplit, vertical, Leaf(target), Leaf(added)));
      nextSplit := nextSplit + 1;
      return Some(added);
    }

    method ScheduleSplitRestore(paned: nat, ratio: real)
      modifies this`scheduled
      ensures scheduled == old(scheduled)[paned := Clamp01(ratio)]
    {
      var r := ratio;
      if r < 0.0 {
        r := 0.0;
      }
      if r > 1.0 {
        r := 1.0;
      }
      scheduled := scheduled[paned := r];
    }

    method RestoreLayoutNode(saved: SavedLayout, seed: Pane) returns (ok: bool)
      modifies this
      ensures (ok, Val()) == RestoreNode(saved, old(Val()), seed)
      decreases saved
    {
      match saved
      case PaneNode(_) =>
        return true;
      case UnknownNode =>
        return false;
      case SplitNode(vertical, ratio, start, end) =>
        if start.None? || end.None? {
          return false;
        }
        var created := SplitPaneTarget(seed, vertical);
        if created.None? {
          return false;
        }
        var thisPaned := ParentOf(root, seed);
        ok := RestoreLayoutNode(start.value, seed);
        if !ok {
          return;
        }
        ok := RestoreLayoutNode(end.value, created.value);
        if !ok {
          return;
        }
        if thisPaned.Some? {
          ScheduleSplitRestore(thisPaned.value, if ratio.Some? then ratio.value else 0.5);
        }
    }
  }
}
