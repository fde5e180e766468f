/** Restoring a strip from arbitrary saved data loses no pane and invents none. */
module SessionStripCorrupt {
  import opened Options
  import opened Sequences
  import opened StripModel
  import opened StripInvariants
  import opened SessionStrip

  /** A rebuilt or restored column, apart from its zoom flags. */
  predicate ColumnOk(c: Column) {
    && 0 <= c.focusedPane < |c.panes|
    && 0 < c.targetWidth
    && c.currentWidth == c.targetWidth as real
  }

  lemma {:induction false} CollectDistinct(listed: seq<Option<string>>, ws: Workspace, seen: set<Pane>)
    ensures Distinct(Collect(listed, ws, seen))
  {
    if listed != [] {
      var p := PaneById(ws.panes, ws.ids, if listed[0].Some? then listed[0].value else "");
      if p.Some? && p.value !in seen {
        CollectDistinct(listed[1..], ws, seen + {p.value});
        DistinctParts([p.value], Collect(listed[1..], ws, seen + {p.value}));
      } else {
        CollectDistinct(listed[1..], ws, seen);
      }
    }
  }

  lemma FlattenCons(c: Column, rest: seq<Column>)
    ensures Flatten(Rows([c] + rest)) == c.panes + Flatten(Rows(rest))
  {
    assert Rows([c] + rest) == [c.panes] + Rows(rest);
    assert ([c.panes] + Rows(rest))[1..] == Rows(rest);
  }

  lemma {:induction false} LeftoversPlaceTheRest(panes: seq<Pane>, seen: set<Pane>)
    ensures var columns := Leftovers(panes, seen);
            && Distinct(Flatten(Rows(columns)))
            && (forall p :: p in Flatten(Rows(columns)) <==> p in panes && p !in seen)
            && (forall i :: 0 <= i < |columns| ==> ColumnOk(columns[i]))
  {
    if panes != [] {
      if panes[0] in seen {
        LeftoversPlaceTheRest(panes[1..], seen);
        assert panes == [panes[0]] + panes[1..];
      } else {
        var rest := Leftovers(panes[1..], seen + {panes[0]});
        LeftoversPlaceTheRest(panes[1..], seen + {panes[0]});
        FlattenCons(NewColumn(panes[0], DEFAULT_COL_WIDTH), rest);
        DistinctParts([panes[0]], Flatten(Rows(rest)));
        assert panes == [panes[0]] + panes[1..];
      }
    }
  }

  lemma {:induction false} RebuildPlacesEachPaneOnce(entries: seq<SavedColumn>, ws: Workspace, seen: set<Pane>)
    ensures var columns := RebuildFrom(entries, ws, seen);
            && Distinct(Flatten(Rows(columns)))
            && (forall p :: p in Flatten(Rows(columns)) <==> p in ws.panes && p !in seen)
            && (forall i :: 0 <= i < |columns| ==> ColumnOk(columns[i]))
  {
    if entries == [] {
      LeftoversPlaceTheRest(ws.panes, seen);
    } else {
      var panes := EntryPanes(entries[0], ws, seen);
      var rest := RebuildFrom(entries[1..], ws, seen + SetOf(panes));
      RebuildPlacesEachPaneOnce(entries[1..], ws, seen + SetOf(panes));
      if panes != [] {
        FlattenCons(BuildColumn(entries[0], panes, ws.ids), rest);
        CollectDistinct(if entries[0].paneIds.Some? then entries[0].paneIds.value else [Some(entries[0].paneId)], ws, seen);
        assert forall p :: p in panes <==> p in SetOf(panes);
        DistinctParts(panes, Flatten(Rows(rest)));
      }
    }
  }

  /** Whenever columns are rebuilt, whatever the file says: the panes of the
      columns, read off in order, are the workspace's panes, each exactly once;
      no column is empty and every focus index is in range. */
  lemma RebuildPermutesPanes(ws: Workspace, saved: SavedStrip)
    requires Distinct(ws.panes) && Rebuild(ws, saved).Some?
    ensures var columns := Rebuild(ws, saved).value;
            && columns != []
            && multiset(Flatten(Rows(columns))) == multiset(ws.panes)
            && Distinct(Flatten(Rows(columns)))
            && (forall i :: 0 <= i < |columns| ==> ColumnOk(columns[i]))
  {
    RebuildPlacesEachPaneOnce(saved.columns.value, ws, {});
    SameElementsPermute(Flatten(Rows(Rebuild(ws, saved).value)), ws.panes);
  }

  /** Columns are rebuilt exactly when the file has a non-empty column list and
      the workspace has a pane. */
  lemma RebuildHappens(ws: Workspace, saved: SavedStrip)
    ensures Rebuild(ws, saved).Some? <==> saved.columns.Some? && saved.columns.value != [] && ws.panes != []
  {
    if saved.columns.Some? {
      RebuildPlacesEachPaneOnce(saved.columns.value, ws, {});
      var columns := RebuildFrom(saved.columns.value, ws, {});
      assert ws.panes != [] ==> ws.panes[0] in Flatten(Rows(columns));
      NoEmptyFlattening(columns);
    }
  }

  lemma NoEmptyFlattening(columns: seq<Column>)
    requires forall i :: 0 <= i < |columns| ==> ColumnOk(columns[i])
    ensures columns != [] ==> exists p :: p in Flatten(Rows(columns))
  {
    if columns != [] {
      assert Rows(columns)[0] == columns[0].panes;
      InFlatten(Rows(columns), columns[0].panes[0]);
    }
  }

  // ---- the second pass ----

  /** Sound columns over the same panes, row by row. */
  ghost predicate Kept(r: seq<Column>, columns: seq<Column>) {
    && |r| == |columns|
    && forall i :: 0 <= i < |columns| ==> ColumnOk(r[i]) && r[i].panes == columns[i].panes
  }

  lemma ApplyEntryKeeps(columns: seq<Column>, was: seq<Column>, ids: map<Pane, string>, e: SavedColumn, i: nat)
    requires Kept(columns, was)
    ensures Kept(ApplyEntry(columns, ids, e, i), was)
  {
    if e.SavedColumn? && TargetIndex(columns, ids, e, i) >= 0 {
      var c := columns[TargetIndex(columns, ids, e, i)];
      assert ColumnOk(UpdateColumn(e, c, ids));
    }
  }

  /** A second pass changes no column's panes and leaves every column sound. */
  lemma {:induction false} SecondPassKeeps(columns: seq<Column>, ids: map<Pane, string>, entries: seq<SavedColumn>, n: nat)
    requires n <= |entries|
    requires forall i :: 0 <= i < |columns| ==> ColumnOk(columns[i])
    ensures Kept(SecondPass(columns, ids, entries, n), columns)
  {
    if n > 0 {
      SecondPassKeeps(columns, ids, entries, n - 1);
      ApplyEntryKeeps(SecondPass(columns, ids, entries, n - 1), columns, ids, entries[n - 1], n - 1);
    }
  }

  lemma {:induction false} ColumnByIdHas(columns: seq<Column>, ids: map<Pane, string>, id: string)
    ensures ColumnById(columns, ids, id) >= 0 ==>
              IndexById(columns[ColumnById(columns, ids, id)].panes, ids, id) >= 0
  {
    if columns != [] {
      ColumnByIdHas(columns[1..], ids, id);
    }
  }

  lemma FocusSavedPaneKeeps(columns: seq<Column>, was: seq<Column>, ids: map<Pane, string>, saved: SavedStrip)
    requires Kept(columns, was)
    ensures Kept(FocusSavedPane(columns, ids, saved), was)
  {
    if saved.focusedPaneId.Some? {
      ColumnByIdHas(columns, ids, saved.focusedPaneId.value);
    }
  }

  lemma MarkLegacyKeeps(columns: seq<Column>, was: seq<Column>, ids: map<Pane, string>, saved: SavedStrip)
    requires Kept(columns, was)
    ensures Kept(MarkLegacy(columns, ids, saved), was)
  {
  }

  /** Whatever the file says, the settings leave the panes where they are. */
  lemma SettingsKeep(columns: seq<Column>, focusedCol: int, ids: map<Pane, string>, saved: SavedStrip)
    requires columns != [] && forall i :: 0 <= i < |columns| ==> 0 <= columns[i].focusedPane < |columns[i].panes|
    ensures Kept(Settings(columns, focusedCol, ids, saved).0, columns)
    ensures 0 <= Settings(columns, focusedCol, ids, saved).1 < |columns|
  {
    var entries := Entries(saved);
    var reset := ResetColumns(columns);
    SecondPassKeeps(reset, ids, entries, |entries|);
    var passed := SecondPass(reset, ids, entries, |entries|);
    assert Kept(passed, columns);
    FocusSavedPaneKeeps(passed, columns, ids, saved);
    MarkLegacyKeeps(FocusSavedPane(passed, ids, saved), columns, ids, saved);
  }

  /** The part of a strip's structure that no session file can break: what may be
      broken by a hand-edited one is only the exclusion of the two zoom flags. */
  ghost predicate Sound(s: Strip) {
    && 0 <= s.focusedCol < |s.columns|
    && (forall i :: 0 <= i < |s.columns| ==>
          0 <= s.columns[i].focusedPane < |s.columns[i].panes| && 0 <= s.columns[i].targetWidth)
    && Distinct(Panes(s))
  }

  lemma LaidOutAndFocused(s: Strip, i: nat, width: int)
    requires i < |s.columns|
    ensures var s' := FocusColumn(ApplyLayout(s, width), i, width);
            && s'.columns == LayOutColumns(s.columns, Viewport(width))
            && s'.focusedCol == i && Panes(s') == Panes(s)
  {
    SamePanes(s.columns, LayOutColumns(s.columns, Viewport(width)));
  }

  /** The last steps of a restore, from whatever columns there are. */
  lemma SettledIsSound(s: Strip, columns: seq<Column>, ids: map<Pane, string>, saved: SavedStrip, width: int)
    requires columns != [] && Distinct(Flatten(Rows(columns)))
    requires forall i :: 0 <= i < |columns| ==> 0 <= columns[i].focusedPane < |columns[i].panes|
    ensures var (settled, focus) := Settings(columns, s.focusedCol, ids, saved);
            var s' := FocusColumn(ApplyLayout(s.(columns := settled, focusedCol := focus), width), focus, width);
            Sound(s') && Panes(s') == Flatten(Rows(columns))
  {
    SettingsKeep(columns, s.focusedCol, ids, saved);
    var settings := Settings(columns, s.focusedCol, ids, saved);
    SamePanes(columns, settings.0);
    LaidOutAndFocused(s.(columns := settings.0, focusedCol := settings.1), settings.1, width);
  }

  /** Restoring arbitrary saved data into a sound strip over the workspace's panes
      yields a sound strip over the same panes, and when columns were rebuilt
      the workspace's pane array lists the panes in column order. */
  lemma RestoreIsSound(s: Strip, ws: Workspace, saved: Option<SavedStrip>, width: int)
    requires Sound(s) && Distinct(ws.panes) && multiset(Panes(s)) == multiset(ws.panes)
    ensures var (s', ws') := Restore(s, ws, saved, width);
            && Sound(s')
            && multiset(Panes(s')) == multiset(ws.panes) == multiset(ws'.panes)
            && ws'.ids == ws.ids
            && (saved.Some? && Rebuild(ws, saved.value).Some? ==> ws'.panes == Panes(s'))
  {
    if saved.Some? {
      if Rebuild(ws, saved.value).Some? {
        RebuildPermutesPanes(ws, saved.value);
        SettledIsSound(s, Rebuild(ws, saved.value).value, ws.ids, saved.value, width);
      } else {
        SettledIsSound(s, s.columns, ws.ids, saved.value, width);
      }
    }
  }
}
