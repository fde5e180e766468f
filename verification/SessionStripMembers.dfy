/**
  What the members of a saved strip mean (src/gtk/session.c:500-552, 651-899): what
  an entry makes of its column, and what is written for readers of either form.
 */
module SessionStripMembers {
  import opened Options
  import opened StripModel
  import opened StripInvariants
  import opened SessionStrip

  // ---- what an entry says about its column ----

  /** The pane an entry wants the focus on: by id if it names one, else by index,
      else the one that has it; the first if there is no such pane. */
  ghost predicate FocusWanted(e: SavedColumn, panes: seq<Pane>, ids: map<Pane, string>, now: int, focus: int)
    requires e.SavedColumn? && panes != []
  {
    && 0 <= focus < |panes|
    && if e.focusedPaneId.Some? then
         if exists k :: 0 <= k < |panes| && IdOf(ids, panes[k]) == e.focusedPaneId.value != "" then
           IdOf(ids, panes[focus]) == e.focusedPaneId.value
           && forall k :: 0 <= k < focus ==> IdOf(ids, panes[k]) != e.focusedPaneId.value
         else focus == 0
       else
         var k := if e.focusedPane.Some? then CInt(e.focusedPane.value) else now;
         focus == if 0 <= k < |panes| then k else 0
  }

  lemma {:induction false} IndexByIdIsFirst(panes: seq<Pane>, ids: map<Pane, string>, id: string)
    ensures var i := IndexById(panes, ids, id);
            if exists k :: 0 <= k < |panes| && IdOf(ids, panes[k]) == id != ""
            then 0 <= i && IdOf(ids, panes[i]) == id && forall k :: 0 <= k < i ==> IdOf(ids, panes[k]) != id
            else i == -1
  {
    if panes != [] {
      IndexByIdIsFirst(panes[1..], ids, id);
      assert forall k :: 1 <= k < |panes| ==> panes[k] == panes[1..][k - 1];
      assert forall k :: 0 <= k < |panes| - 1 ==> panes[1..][k] == panes[k + 1];
    }
  }

  /** What is made of a width in a file: 600 of none and of a non-positive one. */
  predicate WidthWanted(width: Option<int>, now: int, made: int) {
    var w := CInt(if width.Some? then width.value else now);
    made == if w > 0 then w else 600
  }

  /** A column made of an entry, and a column that an entry is applied to: focus,
      width and flags are what the entry says, or, where it says nothing, the
      first pane, 600 and none for a new one, and as they were for an old one. */
  lemma EntryShapesColumn(e: SavedColumn, panes: seq<Pane>, c: Column, ids: map<Pane, string>)
    requires e.SavedColumn? && panes != [] && c.panes == panes
    ensures var made := BuildColumn(e, panes, ids);
            && made.panes == panes && FocusWanted(e, panes, ids, 0, made.focusedPane)
            && WidthWanted(e.width, 600, made.targetWidth) && made.currentWidth == made.targetWidth as real
            && (made.maximized <==> e.maximized == Some(true))
            && (made.halfMaximized <==> e.halfMaximized == Some(true))
    ensures var now := UpdateColumn(e, c, ids);
            && now.panes == panes && FocusWanted(e, panes, ids, c.focusedPane, now.focusedPane)
            && WidthWanted(e.width, c.targetWidth, now.targetWidth) && now.currentWidth == now.targetWidth as real
            && now.maximized == (if e.maximized.Some? then e.maximized.value else c.maximized)
            && now.halfMaximized == (if e.halfMaximized.Some? then e.halfMaximized.value else c.halfMaximized)
  {
    if e.focusedPaneId.Some? {
      IndexByIdIsFirst(panes, ids, e.focusedPaneId.value);
    }
  }

  /** An integer of the file as a C int: itself if it fits, and always the same
      modulo 2^32. */
  lemma CIntIs(x: int)
    ensures -0x8000_0000 <= CInt(x) < 0x8000_0000 && (CInt(x) - x) % 0x1_0000_0000 == 0
    ensures -0x8000_0000 <= x < 0x8000_0000 ==> CInt(x) == x
  {
  }

  // ---- which column is meant ----

  /** Column `i` is the first that holds a pane with the id. */
  ghost predicate HoldsFirst(columns: seq<Column>, ids: map<Pane, string>, id: string, i: int) {
    && 0 <= i < |columns| && Holds(columns[i], ids, id)
    && forall j :: 0 <= j < i ==> !Holds(columns[j], ids, id)
  }

  predicate Holds(c: Column, ids: map<Pane, string>, id: string) {
    id != "" && exists k :: 0 <= k < |c.panes| && IdOf(ids, c.panes[k]) == id
  }

  lemma {:induction false} ColumnByIdIs(columns: seq<Column>, ids: map<Pane, string>, id: string)
    ensures var i := ColumnById(columns, ids, id);
            if i >= 0 then HoldsFirst(columns, ids, id, i)
            else i == -1 && forall j :: 0 <= j < |columns| ==> !Holds(columns[j], ids, id)
  {
    if columns != [] {
      IndexByIdIsFirst(columns[0].panes, ids, id);
      ColumnByIdIs(columns[1..], ids, id);
      assert forall j :: 1 <= j < |columns| ==> columns[j] == columns[1..][j - 1];
      assert forall j :: 0 <= j < |columns| - 1 ==> columns[1..][j] == columns[j + 1];
    }
  }

  /** An entry is applied to the first column that holds its pane; else to the
      column with its own number; else not at all. */
  lemma EntryMeansColumn(columns: seq<Column>, ids: map<Pane, string>, e: SavedColumn, i: nat, k: nat)
    requires e.SavedColumn?
    ensures HoldsFirst(columns, ids, e.paneId, k) ==> TargetIndex(columns, ids, e, i) == k
    ensures (forall j :: 0 <= j < |columns| ==> !Holds(columns[j], ids, e.paneId)) ==>
              TargetIndex(columns, ids, e, i) == if i < |columns| then i else -1
  {
    ColumnByIdIs(columns, ids, e.paneId);
  }

  /** The focus goes to the pane the state names; without one, to the column with
      the number it names, or that had it, and to the first if there is no such. */
  lemma StateMeansFocus(columns: seq<Column>, focusedCol: int, ids: map<Pane, string>, saved: SavedStrip, i: nat)
    requires columns != []
    ensures var (r, f) := (FocusSavedPane(columns, ids, saved), SavedFocusCol(columns, focusedCol, ids, saved));
            && (saved.focusedPaneId.Some? && HoldsFirst(columns, ids, saved.focusedPaneId.value, i) ==>
                  && f == i && r == columns[i := columns[i].(focusedPane := r[i].focusedPane)]
                  && 0 <= r[i].focusedPane < |columns[i].panes|
                  && IdOf(ids, columns[i].panes[r[i].focusedPane]) == saved.focusedPaneId.value)
            && ((saved.focusedPaneId.Some? ==>
                   forall j :: 0 <= j < |columns| ==> !Holds(columns[j], ids, saved.focusedPaneId.value)) ==>
                  && r == columns
                  && var k := if saved.focusedColumn.Some? then CInt(saved.focusedColumn.value) else focusedCol;
                     f == if 0 <= k < |columns| then k else 0)
  {
    if saved.focusedPaneId.Some? {
      ColumnByIdIs(columns, ids, saved.focusedPaneId.value);
      IndexByIdIsFirst(columns[if i < |columns| then i else 0].panes, ids, saved.focusedPaneId.value);
    }
  }

  /** In older files the maximized column is the first that holds the pane they
      name, else the one with the number they name, else none. */
  lemma OlderFilesMaximize(columns: seq<Column>, ids: map<Pane, string>, saved: SavedStrip, i: nat)
    ensures saved.maximizedPaneId.Some? && HoldsFirst(columns, ids, saved.maximizedPaneId.value, i) ==>
              MarkLegacy(columns, ids, saved) == columns[i := columns[i].(maximized := true)]
    ensures (saved.maximizedPaneId.Some? ==>
               forall j :: 0 <= j < |columns| ==> !Holds(columns[j], ids, saved.maximizedPaneId.value)) ==>
              var k := if saved.maximizedColumn.Some? then CInt(saved.maximizedColumn.value) else -1;
              MarkLegacy(columns, ids, saved) ==
              if 0 <= k < |columns| then columns[k := columns[k].(maximized := true)] else columns
  {
    if saved.maximizedPaneId.Some? {
      ColumnByIdIs(columns, ids, saved.maximizedPaneId.value);
    }
  }

  // ---- what is written, for readers of either form ----

  function IdAt(c: Column, ids: map<Pane, string>): string
    requires ColumnInv(c)
  {
    IdOf(ids, c.panes[c.focusedPane])
  }

  /** An entry lists the ids of the panes in order; the older form reads from it
      the focused pane alone, and both read the same focus. */
  lemma EntryIsSaved(c: Column, ids: map<Pane, string>)
    requires ColumnInv(c)
    ensures var e := SaveColumn(c, ids);
            && e.SavedColumn? && e.paneIds.Some? && |e.paneIds.value| == |c.panes|
            && (forall k :: 0 <= k < |c.panes| ==> e.paneIds.value[k] == Some(IdOf(ids, c.panes[k])))
            && e.focusedPane == Some(c.focusedPane)
            && e.paneId == IdAt(c, ids) && e.focusedPaneId == Some(IdAt(c, ids))
            && e.width == Some(if c.targetWidth > 0 then c.targetWidth else 600)
            && e.maximized == Some(c.maximized) && e.halfMaximized == Some(c.halfMaximized)
  {
  }

  /** The rest of the state names the focused column and pane, and for older
      readers the first maximized column and its pane, -1 and no pane if there is none. */
  lemma StateIsSaved(s: Strip, ids: map<Pane, string>, i: nat)
    requires Shape(s)
    ensures var saved := Save(s, ids);
            && saved.columns == Some(SaveColumns(s.columns, ids))
            && saved.focusedColumn == Some(s.focusedCol)
            && saved.focusedPaneId == Some(IdAt(s.columns[s.focusedCol], ids))
            && (i < |s.columns| && s.columns[i].maximized && (forall k :: 0 <= k < i ==> !s.columns[k].maximized) ==>
                  saved.maximizedColumn == Some(i) && saved.maximizedPaneId == Some(IdAt(s.columns[i], ids)))
            && ((forall k :: 0 <= k < |s.columns| ==> !s.columns[k].maximized) ==>
                  saved.maximizedColumn == Some(-1) && saved.maximizedPaneId == Some(""))
  {
    if i < |s.columns| && s.columns[i].maximized && (forall k :: 0 <= k < i ==> !s.columns[k].maximized) {
      FirstMaximizedIs(s.columns, i);
    }
  }

  lemma {:induction false} FirstMaximizedIs(columns: seq<Column>, i: nat)
    requires i < |columns| && columns[i].maximized && forall k :: 0 <= k < i ==> !columns[k].maximized
    ensures FirstMaximized(columns) == i
  {
    if i > 0 {
      FirstMaximizedIs(columns[1..], i - 1);
    }
  }
}
