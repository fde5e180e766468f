/**
  Saving the strip layout and restoring it from whatever the session file holds
  (src/gtk/session.c:303-960).  A saved state is what is left of the file after
  JSON parsing: members may be missing, ids may be unknown or repeated, and
  entries need not be objects.
 */
module SessionStrip {
  import opened Options
  import opened Sequences
  import opened StripModel
  import opened StripInvariants

  datatype SavedColumn =
    | NotAnObject
    | SavedColumn(
        paneId: string,                          // "" when missing
        paneIds: Option<seq<Option<string>>>,    // None when missing or no array
        focusedPane: Option<int>,
        focusedPaneId: Option<string>,
        width: Option<int>,
        maximized: Option<bool>,
        halfMaximized: Option<bool>)

  datatype SavedStrip = SavedStrip(
    columns: Option<seq<SavedColumn>>,           // None when missing or no array
    focusedColumn: Option<int>,
    focusedPaneId: Option<string>,
    maximizedColumn: Option<int>,
    maximizedPaneId: Option<string>)

  /** The panes of a workspace in the order of its pane array, and their ids;
      a pane without an id has the empty one. */
  datatype Workspace = Workspace(panes: seq<Pane>, ids: map<Pane, string>)

  function IdOf(ids: map<Pane, string>, p: Pane): string {
    if p in ids then ids[p] else ""
  }

  /** A 64-bit JSON integer cast to a C int. */
  function CInt(x: int): int {
    (x + 0x8000_0000) % 0x1_0000_0000 - 0x8000_0000
  }

  /** The first pane with an id; the empty id names no pane. */
  function PaneById(panes: seq<Pane>, ids: map<Pane, string>, id: string): (p: Option<Pane>)
    ensures p.Some? ==> p.value in panes && IdOf(ids, p.value) == id && id != ""
    ensures p.None? && id != "" ==> forall q :: q in panes ==> IdOf(ids, q) != id
  {
    if id == "" || panes == [] then None
    else if IdOf(ids, panes[0]) == id then Some(panes[0])
    else PaneById(panes[1..], ids, id)
  }

  /** The index of the first pane with an id in a column, or -1. */
  function IndexById(panes: seq<Pane>, ids: map<Pane, string>, id: string): (i: int)
    ensures -1 <= i < |panes|
    ensures i >= 0 ==> IdOf(ids, panes[i]) == id
    ensures i < 0 && id != "" ==> forall k :: 0 <= k < |panes| ==> IdOf(ids, panes[k]) != id
  {
    if id == "" || panes == [] then -1
    else if IdOf(ids, panes[0]) == id then 0
    else
      var rest := IndexById(panes[1..], ids, id);
      assert forall k :: 1 <= k < |panes| ==> panes[k] == panes[1..][k - 1];
      if rest < 0 then -1 else rest + 1
  }

  function ColumnById(columns: seq<Column>, ids: map<Pane, string>, id: string): (i: int)
    ensures -1 <= i < |columns|
  {
    if id == "" || columns == [] then -1
    else if IndexById(columns[0].panes, ids, id) >= 0 then 0
    else
      var rest := ColumnById(columns[1..], ids, id);
      if rest < 0 then -1 else rest + 1
  }

  // ---- rebuilding the columns ----

  function SetOf(ps: seq<Pane>): set<Pane> {
    set p | p in ps
  }

  /** The listed panes that exist and have not been placed yet. */
  function Collect(listed: seq<Option<string>>, ws: Workspace, seen: set<Pane>): (ps: seq<Pane>)
    ensures forall p :: p in ps ==> p in ws.panes && p !in seen && IdOf(ws.ids, p) != ""
  {
    if listed == [] then []
    else
      var p := PaneById(ws.panes, ws.ids, if listed[0].Some? then listed[0].value else "");
      if p.Some? && p.value !in seen then [p.value] + Collect(listed[1..], ws, seen + {p.value})
      else Collect(listed[1..], ws, seen)
  }

  /** An entry lists its panes, or names a single one (the older format). */
  function EntryPanes(e: SavedColumn, ws: Workspace, seen: set<Pane>): (ps: seq<Pane>)
    ensures forall p :: p in ps ==> p in ws.panes && p !in seen && IdOf(ws.ids, p) != ""
  {
    if e.NotAnObject? then []
    else Collect(if e.paneIds.Some? then e.paneIds.value else [Some(e.paneId)], ws, seen)
  }

  function InRangeOrZero(i: int, n: nat): int {
    if i < 0 || i >= n then 0 else i
  }

  function SavedFocus(e: SavedColumn, panes: seq<Pane>, ids: map<Pane, string>): int
    requires e.SavedColumn?
  {
    InRangeOrZero(
      if e.focusedPaneId.Some? then IndexById(panes, ids, e.focusedPaneId.value)
      else if e.focusedPane.Some? then CInt(e.focusedPane.value)
      else 0, |panes|)
  }

  function BuildColumn(e: SavedColumn, panes: seq<Pane>, ids: map<Pane, string>): Column
    requires e.SavedColumn?
  {
    var width := WidthOr600(CInt(if e.width.Some? then e.width.value else DEFAULT_COL_WIDTH));
    Column(panes, SavedFocus(e, panes, ids), width, width as real,
           e.maximized == Some(true), e.halfMaximized == Some(true))
  }

  /** Panes that no entry mentioned get a column of their own. */
  function Leftovers(panes: seq<Pane>, seen: set<Pane>): seq<Column> {
    if panes == [] then []
    else if panes[0] in seen then Leftovers(panes[1..], seen)
    else [NewColumn(panes[0], DEFAULT_COL_WIDTH)] + Leftovers(panes[1..], seen + {panes[0]})
  }

  function RebuildFrom(entries: seq<SavedColumn>, ws: Workspace, seen: set<Pane>): seq<Column> {
    if entries == [] then Leftovers(ws.panes, seen)
    else
      var panes := EntryPanes(entries[0], ws, seen);
      var rest := RebuildFrom(entries[1..], ws, seen + SetOf(panes));
      if panes == [] then rest else [BuildColumn(entries[0], panes, ws.ids)] + rest
  }

  /** None when the saved state gives no reason to rebuild. */
  function Rebuild(ws: Workspace, saved: SavedStrip): Option<seq<Column>> {
    if saved.columns.None? || saved.columns.value == [] then None
    else
      var columns := RebuildFrom(saved.columns.value, ws, {});
      if columns == [] then None else Some(columns)
  }

  // ---- the second pass over the entries ----

  function ResetColumn(c: Column): Column {
    var width := WidthOr600(c.targetWidth);
    c.(targetWidth := width, currentWidth := width as real, maximized := false, halfMaximized := false)
  }

  function ResetColumns(columns: seq<Column>): (r: seq<Column>)
    ensures |r| == |columns|
    ensures forall i :: 0 <= i < |columns| ==> r[i] == ResetColumn(columns[i])
  {
    seq(|columns|, i requires 0 <= i < |columns| => ResetColumn(columns[i]))
  }

  function TargetIndex(columns: seq<Column>, ids: map<Pane, string>, e: SavedColumn, i: nat): int
    requires e.SavedColumn?
  {
    var found := ColumnById(columns, ids, e.paneId);
    if found < 0 && i < |columns| then i else found
  }

  function SecondFocus(e: SavedColumn, c: Column, ids: map<Pane, string>): int
    requires e.SavedColumn?
  {
    InRangeOrZero(
      if e.focusedPaneId.Some? then IndexById(c.panes, ids, e.focusedPaneId.value)
      else if e.focusedPane.Some? then CInt(e.focusedPane.value)
      else c.focusedPane, |c.panes|)
  }

  function UpdateColumn(e: SavedColumn, c: Column, ids: map<Pane, string>): Column
    requires e.SavedColumn?
  {
    var width := WidthOr600(CInt(if e.width.Some? then e.width.value else c.targetWidth));
    Column(c.panes, SecondFocus(e, c, ids), width, width as real,
           if e.maximized.Some? then e.maximized.value else c.maximized,
           if e.halfMaximized.Some? then e.halfMaximized.value else c.halfMaximized)
  }

  function ApplyEntry(columns: seq<Column>, ids: map<Pane, string>, e: SavedColumn, i: nat): (r: seq<Column>)
    ensures |r| == |columns|
  {
    if e.NotAnObject? || TargetIndex(columns, ids, e, i) < 0 then columns
    else
      var k := TargetIndex(columns, ids, e, i);
      columns[k := UpdateColumn(e, columns[k], ids)]
  }

  /** The columns after the first `n` entries. */
  function SecondPass(columns: seq<Column>, ids: map<Pane, string>, entries: seq<SavedColumn>, n: nat): (r: seq<Column>)
    requires n <= |entries|
    ensures |r| == |columns|
  {
    if n == 0 then columns
    else ApplyEntry(SecondPass(columns, ids, entries, n - 1), ids, entries[n - 1], n - 1)
  }

  /** Whether one of the first `n` entries maximized the column it applied to. */
  predicate AnyMaximized(columns: seq<Column>, ids: map<Pane, string>, entries: seq<SavedColumn>, n: nat)
    requires n <= |entries|
  {
    n > 0 &&
    (AnyMaximized(columns, ids, entries, n - 1) ||
     (&& entries[n - 1].SavedColumn?
      && entries[n - 1].maximized == Some(true)
      && TargetIndex(SecondPass(columns, ids, entries, n - 1), ids, entries[n - 1], n - 1) >= 0))
  }

  /** Where older files, which have one maximized column at most, put it. */
  function LegacyMaximized(columns: seq<Column>, ids: map<Pane, string>, saved: SavedStrip): int {
    var byPane := if saved.maximizedPaneId.Some? then ColumnById(columns, ids, saved.maximizedPaneId.value) else -1;
    if byPane >= 0 then byPane
    else if saved.maximizedColumn.Some? && 0 <= CInt(saved.maximizedColumn.value) < |columns| then
      CInt(saved.maximizedColumn.value)
    else -1
  }

  /** The column of the pane that the state names as focused, or -1. */
  function FocusByPane(columns: seq<Column>, ids: map<Pane, string>, saved: SavedStrip): (i: int)
    ensures -1 <= i < |columns|
  {
    if saved.focusedPaneId.Some? then ColumnById(columns, ids, saved.focusedPaneId.value) else -1
  }

  /** ... which becomes the focused pane of that column. */
  function FocusSavedPane(columns: seq<Column>, ids: map<Pane, string>, saved: SavedStrip): (r: seq<Column>)
    ensures |r| == |columns|
  {
    var i := FocusByPane(columns, ids, saved);
    if i < 0 then columns
    else columns[i := columns[i].(focusedPane := IndexById(columns[i].panes, ids, saved.focusedPaneId.value))]
  }

  function SavedFocusCol(columns: seq<Column>, focusedCol: int, ids: map<Pane, string>, saved: SavedStrip): int {
    var i := FocusByPane(columns, ids, saved);
    InRangeOrZero(
      if i >= 0 then i else if saved.focusedColumn.Some? then CInt(saved.focusedColumn.value) else focusedCol,
      |columns|)
  }

  function MarkLegacy(columns: seq<Column>, ids: map<Pane, string>, saved: SavedStrip): (r: seq<Column>)
    ensures |r| == |columns|
  {
    var i := LegacyMaximized(columns, ids, saved);
    if 0 <= i < |columns| then columns[i := columns[i].(maximized := true)] else columns
  }

  function Entries(saved: SavedStrip): seq<SavedColumn> {
    if saved.columns.Some? then saved.columns.value else []
  }

  /** The columns and the focused column that a saved state asks for. */
  function Settings(columns: seq<Column>, focusedCol: int, ids: map<Pane, string>, saved: SavedStrip): (r: (seq<Column>, int))
    ensures |r.0| == |columns|
  {
    var entries := Entries(saved);
    var reset := ResetColumns(columns);
    var passed := SecondPass(reset, ids, entries, |entries|);
    var focused := FocusSavedPane(passed, ids, saved);
    (if AnyMaximized(reset, ids, entries, |entries|) then focused else MarkLegacy(focused, ids, saved),
     SavedFocusCol(passed, focusedCol, ids, saved))
  }

  /** session_restore_workspace_strip_state. */
  function Restore(s: Strip, ws: Workspace, saved: Option<SavedStrip>, width: int): (Strip, Workspace) {
    if |s.columns| == 0 || saved.None? then (s, ws)
    else
      var rebuilt := Rebuild(ws, saved.value);
      var columns := if rebuilt.Some? then rebuilt.value else s.columns;
      var ws' := if rebuilt.Some? then ws.(panes := Flatten(Rows(columns))) else ws;
      var settings := Settings(columns, s.focusedCol, ws.ids, saved.value);
      var s1 := s.(columns := settings.0, focusedCol := settings.1);
      (FocusColumn(ApplyLayout(s1, width), settings.1, width), ws')
  }

  // ---- saving ----

  function FocusedId(c: Column, ids: map<Pane, string>): string {
    var p := FocusedNotebook(c);
    if p.Some? then IdOf(ids, p.value) else ""
  }

  function SavedIds(panes: seq<Pane>, ids: map<Pane, string>): (r: seq<Option<string>>)
    ensures |r| == |panes|
  {
    seq(|panes|, i requires 0 <= i < |panes| => Some(IdOf(ids, panes[i])))
  }

  function SaveColumn(c: Column, ids: map<Pane, string>): SavedColumn {
    SavedColumn(
      FocusedId(c, ids),
      Some(if |c.panes| > 0 then SavedIds(c.panes, ids) else [Some("")]),
      Some(if |c.panes| > 0 then Clamp(c.focusedPane, 0, |c.panes| - 1) else 0),
      Some(FocusedId(c, ids)),
      Some(WidthOr600(c.targetWidth)),
      Some(c.maximized),
      Some(c.halfMaximized))
  }

  function SaveColumns(columns: seq<Column>, ids: map<Pane, string>): (r: seq<SavedColumn>)
    ensures |r| == |columns|
  {
    seq(|columns|, i requires 0 <= i < |columns| => SaveColumn(columns[i], ids))
  }

  /** The first maximized column, or -1. */
  function FirstMaximized(columns: seq<Column>): (i: int)
    ensures -1 <= i < |columns|
    ensures i >= 0 <==> exists k :: 0 <= k < |columns| && columns[k].maximized
  {
    if columns == [] then -1
    else if columns[0].maximized then 0
    else
      var rest := FirstMaximized(columns[1..]);
      assert forall k :: 0 < k < |columns| ==> columns[k] == columns[1..][k - 1];
      assert forall k :: 0 <= k < |columns| - 1 ==> columns[1..][k] == columns[k + 1];
      if rest < 0 then -1 else rest + 1
  }

  /** session_save_workspace_strip_state, for a strip that has columns. */
  function Save(s: Strip, ids: map<Pane, string>): SavedStrip {
    var focus := if s.focusedCol >= 0 then s.focusedCol else 0;
    var inRange := focus < |s.columns|;
    var m := FirstMaximized(s.columns);
    SavedStrip(
      Some(SaveColumns(s.columns, ids)),
      Some(if inRange then focus else 0),
      Some(if inRange then FocusedId(s.columns[focus], ids) else ""),
      Some(m),
      Some(if m >= 0 then FocusedId(s.columns[m], ids) else ""))
  }
}
