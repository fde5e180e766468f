/**
  Restoring the strip state as session.c does it (src/gtk/session.c:303-353,
  419-625, 784-960): loops over the saved entries that fill arrays of new column
  objects, and a second loop that overwrites their fields.  Every method is
  proved to do what SessionStrip says.
 */
module SessionRestore {
  import opened Options
  import opened Sequences
  import opened StripModel
  import opened StripInvariants
  import opened SessionStrip
  import opened WorkspaceStrip

  /** Distinct column objects and the values they hold. */
  ghost predicate Hold(objects: seq<WorkspaceColumn>, values: seq<Column>)
    reads objects
  {
    && |objects| == |values|
    && (forall i, j :: 0 <= i < j < |objects| ==> objects[i] != objects[j])
    && forall i :: 0 <= i < |objects| ==> objects[i].Val() == values[i]
  }

  class StripWorkspace {
    const strip: WorkspaceStripState
    const ids: map<Pane, string>
    var paneNotebooks: seq<Pane>

    constructor (strip: WorkspaceStripState, panes: seq<Pane>, ids: map<Pane, string>)
      ensures this.strip == strip && paneNotebooks == panes && this.ids == ids
    {
      this.strip := strip;
      this.ids := ids;
      paneNotebooks := panes;
    }

    ghost function Val(): Workspace
      reads this
    {
      Workspace(paneNotebooks, ids)
    }

    // ---- lookups ----

    method GetPaneById(id: string) returns (p: Option<Pane>)
      ensures p == PaneById(paneNotebooks, ids, id)
    {
      if id == "" {
        return None;
      }
      for i := 0 to |paneNotebooks|
        invariant PaneById(paneNotebooks, ids, id) == PaneById(paneNotebooks[i..], ids, id)
      {
        if IdOf(ids, paneNotebooks[i]) == id {
          return Some(paneNotebooks[i]);
        }
        assert paneNotebooks[i..][1..] == paneNotebooks[i + 1..];
      }
      return None;
    }

    method PaneIndexById(col: WorkspaceColumn, id: string) returns (k: int)
      ensures k == IndexById(col.panes, ids, id)
    {
      if id == "" {
        return -1;
      }
      for i := 0 to |col.panes|
        invariant var rest := IndexById(col.panes[i..], ids, id);
                  IndexById(col.panes, ids, id) == if rest < 0 then -1 else i + rest
      {
        if IdOf(ids, col.panes[i]) == id {
          return i;
        }
        assert col.panes[i..][1..] == col.panes[i + 1..];
      }
      return -1;
    }

    method ColumnIndexById(id: string) returns (k: int)
      requires strip.Valid()
      ensures k == ColumnById(strip.Columns, ids, id)
    {
      if id == "" {
        return -1;
      }
      for i := 0 to |strip.columns|
        invariant var rest := ColumnById(strip.Columns[i..], ids, id);
                  ColumnById(strip.Columns, ids, id) == if rest < 0 then -1 else i + rest
      {
        var found := PaneIndexById(strip.columns[i], id);
        if found >= 0 {
          return i;
        }
        assert strip.Columns[i..][1..] == strip.Columns[i + 1..];
      }
      return -1;
    }

    // ---- rebuilding the columns ----

    method CollectPanes(listed: seq<Option<string>>, seen: set<Pane>) returns (panes: seq<Pane>)
      ensures panes == Collect(listed, Val(), seen)
    {
      panes := [];
      var placed := seen;
      for i := 0 to |listed|
        invariant placed == seen + SetOf(panes)
        invariant Collect(listed, Val(), seen) == panes + Collect(listed[i..], Val(), placed)
      {
        var p := GetPaneById(if listed[i].Some? then listed[i].value else "");
        assert listed[i..][1..] == listed[i + 1..];
        if p.Some? && p.value !in placed {
          ghost var rest := Collect(listed[i + 1..], Val(), placed + {p.value});
          assert panes + ([p.value] + rest) == panes + [p.value] + rest;
          panes := panes + [p.value];
          placed := placed + {p.value};
        }
      }
      assert panes + [] == panes;
    }

    method BuildOne(e: SavedColumn, panes: seq<Pane>) returns (col: WorkspaceColumn)
      requires e.SavedColumn? && panes != []
      ensures fresh(col) && col.Val() == BuildColumn(e, panes, ids)
    {
      var focused := 0;
      if e.focusedPaneId.Some? {
        focused := IndexById(panes, ids, e.focusedPaneId.value);
      } else if e.focusedPane.Some? {
        focused := CInt(e.focusedPane.value);
      }
      if focused < 0 || focused >= |panes| {
        focused := 0;
      }
      var width := if e.width.Some? then e.width.value else DEFAULT_COL_WIDTH;
      col := new WorkspaceColumn.Restored(panes, focused, WidthOr600(CInt(width)),
                                          e.maximized == Some(true), e.halfMaximized == Some(true));
    }

    /** One round of the first loop. */
    method BuildFromEntry(e: SavedColumn, already: seq<WorkspaceColumn>, ghost before: seq<Column>, seen: set<Pane>)
      returns (built: seq<WorkspaceColumn>, ghost values: seq<Column>, placed: set<Pane>)
      requires Hold(already, before)
      ensures Hold(built, values)
      ensures forall c :: c in built ==> c in already || fresh(c)
      ensures var panes := EntryPanes(e, Val(), seen);
              && values == before + (if panes == [] then [] else [BuildColumn(e, panes, ids)])
              && placed == seen + SetOf(panes)
    {
      var panes := PanesOfEntry(e, seen);
      built, values, placed := already, before, seen + (set p | p in panes);
      if panes != [] {
        var col := BuildOne(e, panes);
        built := built + [col];
        values := values + [col.Val()];
      }
    }

    /** The first loop: one column per entry that still has panes to offer. */
    method BuildFromEntries(entries: seq<SavedColumn>)
      returns (built: seq<WorkspaceColumn>, seen: set<Pane>, ghost values: seq<Column>)
      ensures Hold(built, values) && forall c :: c in built ==> fresh(c)
      ensures RebuildFrom(entries, Val(), {}) == values + Leftovers(paneNotebooks, seen)
    {
      built, seen, values := [], {}, [];
      for i := 0 to |entries|
        invariant Hold(built, values) && forall c :: c in built ==> fresh(c)
        invariant RebuildFrom(entries, Val(), {}) == values + RebuildFrom(entries[i..], Val(), seen)
      {
        RebuildStep(entries, Val(), seen, i, values);
        built, values, seen := BuildFromEntry(entries[i], built, values, seen);
      }
    }

    method PanesOfEntry(e: SavedColumn, seen: set<Pane>) returns (panes: seq<Pane>)
      ensures panes == EntryPanes(e, Val(), seen)
    {
      if e.NotAnObject? {
        return [];
      }
      panes := CollectPanes(if e.paneIds.Some? then e.paneIds.value else [Some(e.paneId)], seen);
    }

    /** The second loop: a column for every pane that no entry mentioned. */
    method BuildLeftovers(already: seq<WorkspaceColumn>, ghost before: seq<Column>, placed: set<Pane>)
      returns (built: seq<WorkspaceColumn>, ghost values: seq<Column>)
      requires Hold(already, before)
      ensures Hold(built, values)
      ensures forall c :: c in built ==> c in already || fresh(c)
      ensures values == before + Leftovers(paneNotebooks, placed)
    {
      built, values := already, before;
      var seen := placed;
      for i := 0 to |paneNotebooks|
        invariant Hold(built, values)
        invariant forall c :: c in built ==> c in already || fresh(c)
        invariant before + Leftovers(paneNotebooks, placed) == values + Leftovers(paneNotebooks[i..], seen)
      {
        var p := paneNotebooks[i];
        assert paneNotebooks[i..][1..] == paneNotebooks[i + 1..];
        if p !in seen {
          var col := new WorkspaceColumn(p, DEFAULT_COL_WIDTH);
          ghost var rest := Leftovers(paneNotebooks[i + 1..], seen + {p});
          assert values + ([col.Val()] + rest) == values + [col.Val()] + rest;
          built := built + [col];
          values := values + [col.Val()];
          seen := seen + {p};
        }
      }
      assert values + [] == values;
    }

    /** The workspace's pane array, refilled column by column. */
    method RefillPaneNotebooks()
      requires strip.Valid()
      modifies this
      ensures paneNotebooks == Flatten(Rows(strip.Columns))
    {
      paneNotebooks := [];
      for i := 0 to |strip.columns|
        invariant paneNotebooks + Flatten(Rows(strip.Columns[i..])) == Flatten(Rows(strip.Columns))
      {
        RowsStep(strip.Columns, i);
        paneNotebooks := paneNotebooks + strip.columns[i].panes;
      }
    }

    method RebuildColumns(saved: SavedStrip)
      requires strip.Valid()
      modifies this, strip`columns, strip`Columns
      ensures strip.Valid() && forall c :: c in strip.columns ==> c in old(strip.columns) || fresh(c)
      ensures strip.Columns == var r := Rebuild(old(Val()), saved); if r.Some? then r.value else old(strip.Columns)
      ensures paneNotebooks == if Rebuild(old(Val()), saved).Some? then Flatten(Rows(strip.Columns)) else old(paneNotebooks)
    {
      if saved.columns.None? || saved.columns.value == [] {
        return;
      }
      var fromEntries, seen, before := BuildFromEntries(saved.columns.value);
      var built, values := BuildLeftovers(fromEntries, before, seen);
      if |built| == 0 {
        return;
      }
      strip.columns := built;
      strip.Columns := values;
      RefillPaneNotebooks();
    }

    // ---- the settings ----

    /** Every column loses its flags before the entries are applied. */
    method ResetAll()
      requires strip.Valid()
      modifies strip`Columns, strip.columns
      ensures strip.Valid() && strip.Columns == ResetColumns(old(strip.Columns))
    {
      ghost var was := strip.Columns;
      for i := 0 to |strip.columns|
        invariant strip.Valid() && |strip.Columns| == |was|
        invariant forall k :: 0 <= k < i ==> strip.Columns[k] == ResetColumn(was[k])
        invariant forall k :: i <= k < |strip.columns| ==> strip.Columns[k] == was[k]
      {
        var col := strip.columns[i];
        col.targetWidth := WidthOr600(col.targetWidth);
        col.currentWidth := col.targetWidth as real;
        col.maximized := false;
        col.halfMaximized := false;
        strip.Columns := strip.Columns[i := col.Val()];
      }
    }

    /** Overwrites one column's width, flags and focus from an entry. */
    method UpdateOne(e: SavedColumn, col: WorkspaceColumn)
      requires e.SavedColumn?
      modifies col
      ensures col.Val() == UpdateColumn(e, old(col.Val()), ids)
    {
      var focused := col.focusedPane;
      if e.focusedPaneId.Some? {
        focused := PaneIndexById(col, e.focusedPaneId.value);
      } else if e.focusedPane.Some? {
        focused := CInt(e.focusedPane.value);
      }
      if focused < 0 || focused >= |col.panes| {
        focused := 0;
      }
      col.focusedPane := focused;
      var width := if e.width.Some? then e.width.value else col.targetWidth;
      col.targetWidth := WidthOr600(CInt(width));
      col.currentWidth := col.targetWidth as real;
      if e.maximized.Some? {
        col.maximized := e.maximized.value;
      }
      if e.halfMaximized.Some? {
        col.halfMaximized := e.halfMaximized.value;
      }
    }

    method ApplyEntryAt(e: SavedColumn, i: nat) returns (maximized: bool)
      requires strip.Valid()
      modifies strip`Columns, strip.columns
      ensures strip.Valid() && strip.Columns == ApplyEntry(old(strip.Columns), ids, e, i)
      ensures maximized <==> (&& e.SavedColumn?
                              && e.maximized == Some(true)
                              && TargetIndex(old(strip.Columns), ids, e, i) >= 0)
    {
      if e.NotAnObject? {
        return false;
      }
      var k := ColumnIndexById(e.paneId);
      if k < 0 && i < |strip.columns| {
        k := i;
      }
      if k < 0 {
        return false;
      }
      UpdateOne(e, strip.columns[k]);
      strip.Columns := strip.Columns[k := strip.columns[k].Val()];
      return e.maximized == Some(true);
    }

    method ApplyEntries(entries: seq<SavedColumn>) returns (anyMaximized: bool)
      requires strip.Valid()
      modifies strip`Columns, strip.columns
      ensures strip.Valid() && strip.Columns == SecondPass(old(strip.Columns), ids, entries, |entries|)
      ensures anyMaximized <==> AnyMaximized(old(strip.Columns), ids, entries, |entries|)
    {
      ghost var was := strip.Columns;
      anyMaximized := false;
      for i := 0 to |entries|
        invariant strip.Valid() && strip.Columns == SecondPass(was, ids, entries, i)
        invariant anyMaximized <==> AnyMaximized(was, ids, entries, i)
      {
        var here := ApplyEntryAt(entries[i], i);
        anyMaximized := anyMaximized || here;
      }
    }

    method RestoreFocus(saved: SavedStrip) returns (focus: int)
      requires strip.Valid()
      modifies strip`Columns, strip.columns
      ensures strip.Valid() && strip.Columns == FocusSavedPane(old(strip.Columns), ids, saved)
      ensures focus == SavedFocusCol(old(strip.Columns), strip.focusedCol, ids, saved)
    {
      var found := -1;
      if saved.focusedPaneId.Some? {
        found := ColumnIndexById(saved.focusedPaneId.value);
      }
      if found >= 0 {
        var k := PaneIndexById(strip.columns[found], saved.focusedPaneId.value);
        strip.columns[found].focusedPane := k;
        strip.Columns := strip.Columns[found := strip.columns[found].Val()];
        focus := found;
      } else {
        focus := if saved.focusedColumn.Some? then CInt(saved.focusedColumn.value) else strip.focusedCol;
      }
      if focus < 0 || focus >= |strip.columns| {
        focus := 0;
      }
    }

    /** Older files name one maximized column for the whole strip. */
    method RestoreLegacyMaximized(saved: SavedStrip)
      requires strip.Valid()
      modifies strip`Columns, strip.columns
      ensures strip.Valid() && strip.Columns == MarkLegacy(old(strip.Columns), ids, saved)
    {
      var legacy := -1;
      if saved.maximizedPaneId.Some? {
        legacy := ColumnIndexById(saved.maximizedPaneId.value);
      }
      if legacy < 0 && saved.maximizedColumn.Some? {
        var index := CInt(saved.maximizedColumn.value);
        if 0 <= index < |strip.columns| {
          legacy := index;
        }
      }
      if 0 <= legacy < |strip.columns| {
        strip.columns[legacy].maximized := true;
        strip.Columns := strip.Columns[legacy := strip.columns[legacy].Val()];
      }
    }

    method ApplySettings(saved: SavedStrip) returns (focus: int)
      requires strip.Valid()
      modifies strip`Columns, strip.columns
      ensures strip.Valid()
      ensures (strip.Columns, focus) == Settings(old(strip.Columns), strip.focusedCol, ids, saved)
    {
      ResetAll();
      var anyMaximized := ApplyEntries(Entries(saved));
      focus := RestoreFocus(saved);
      if !anyMaximized {
        RestoreLegacyMaximized(saved);
      }
    }

    method LayOutAndFocus(focus: int, width: int)
      requires strip.Valid()
      modifies strip`Columns, strip`focusedCol, strip`activePane, strip`cameraTargetX, strip`ticking, strip.columns
      ensures strip.Valid()
      ensures strip.Val() == FocusColumn(ApplyLayout(old(strip.Val()).(focusedCol := focus), width), focus, width)
    {
      strip.focusedCol := focus;
      strip.ApplyLayout(width);
      strip.FocusColumn(focus, width);
    }

    method FinishRestore(saved: SavedStrip, width: int)
      requires strip.Valid()
      modifies strip`Columns, strip`focusedCol, strip`activePane, strip`cameraTargetX, strip`ticking, strip.columns
      ensures strip.Valid()
      ensures var settings := Settings(old(strip.Columns), old(strip.focusedCol), ids, saved);
              strip.Val() == FocusColumn(
                ApplyLayout(old(strip.Val()).(columns := settings.0, focusedCol := settings.1), width), settings.1, width)
    {
      var focus := ApplySettings(saved);
      LayOutAndFocus(focus, width);
    }

    method RestoreStripState(saved: Option<SavedStrip>, width: int)
      requires strip.Valid()
      modifies this, strip, strip.columns
      ensures strip.Valid()
      ensures (strip.Val(), Val()) == Restore(old(strip.Val()), old(Val()), saved, width)
    {
      if |strip.columns| == 0 || saved.None? {
        return;
      }
      RebuildColumns(saved.value);
      assert forall i :: 0 <= i < |strip.columns| ==>
          strip.columns[i] in old(strip.columns) || fresh(strip.columns[i]);
      FinishRestore(saved.value, width);
    }
  }

  lemma RebuildStep(entries: seq<SavedColumn>, ws: Workspace, seen: set<Pane>, i: nat, before: seq<Column>)
    requires i < |entries|
    ensures var panes := EntryPanes(entries[i], ws, seen);
            before + RebuildFrom(entries[i..], ws, seen) ==
            before + (if panes == [] then [] else [BuildColumn(entries[i], panes, ws.ids)]) +
            RebuildFrom(entries[i + 1..], ws, seen + SetOf(panes))
  {
    assert entries[i..][1..] == entries[i + 1..];
  }

  lemma RowsStep(columns: seq<Column>, i: nat)
    requires i < |columns|
    ensures Flatten(Rows(columns[i..])) == columns[i].panes + Flatten(Rows(columns[i + 1..]))
  {
    assert Rows(columns[i..])[1..] == Rows(columns[i + 1..]);
  }
}
