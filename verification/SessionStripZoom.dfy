/**
  When a restored strip keeps its two zoom flags apart, and so satisfies the
  whole invariant of a strip (src/gtk/session.c:785-960).
 */
module SessionStripZoom {
  import opened Options
  import opened Sequences
  import opened StripModel
  import opened StripInvariants
  import opened SessionStrip
  import opened SessionStripCorrupt
  import RoundTrip = SessionStripRoundTrip

  /** What an entry says about one of the flags, if anything. */
  function Says(e: SavedColumn, half: bool): Option<bool> {
    if e.NotAnObject? then None else if half then e.halfMaximized else e.maximized
  }

  function Flag(c: Column, half: bool): bool {
    if half then c.halfMaximized else c.maximized
  }

  /** Entry `i` is applied to column `k`. */
  predicate AppliesTo(columns: seq<Column>, ids: map<Pane, string>, entries: seq<SavedColumn>, i: nat, k: nat)
    requires i < |entries|
  {
    entries[i].SavedColumn? && TargetIndex(columns, ids, entries[i], i) == k
  }

  /** Of the first `n` entries applied to column `k`, the last that mentions the
      flag sets it. */
  ghost predicate LastSets(columns: seq<Column>, ids: map<Pane, string>, entries: seq<SavedColumn>, n: nat, k: nat, half: bool)
    requires n <= |entries|
  {
    exists i :: 0 <= i < n && SetsForGood(columns, ids, entries, n, k, half, i)
  }

  ghost predicate SetsForGood(columns: seq<Column>, ids: map<Pane, string>, entries: seq<SavedColumn>, n: nat, k: nat, half: bool, i: nat)
    requires i < n <= |entries|
  {
    && AppliesTo(columns, ids, entries, i, k) && Says(entries[i], half) == Some(true)
    && forall j :: i < j < n && AppliesTo(columns, ids, entries, j, k) ==> Says(entries[j], half).None?
  }

  /** Entry `i` is applied somewhere and maximizes. */
  predicate Maximizes(columns: seq<Column>, ids: map<Pane, string>, entries: seq<SavedColumn>, i: nat)
    requires i < |entries|
  {
    Says(entries[i], false) == Some(true) && TargetIndex(columns, ids, entries[i], i) >= 0
  }

  /** No entry maximizes, and the members of older files name column `k`. */
  ghost predicate LegacySets(columns: seq<Column>, ids: map<Pane, string>, saved: SavedStrip, k: nat) {
    && (forall i :: 0 <= i < |Entries(saved)| ==> !Maximizes(columns, ids, Entries(saved), i))
    && LegacyMaximized(columns, ids, saved) == k
  }

  /** The saved state asks for both zooms of column `k`. */
  ghost predicate AsksForBoth(columns: seq<Column>, ids: map<Pane, string>, saved: SavedStrip, k: nat) {
    var entries := Entries(saved);
    && LastSets(columns, ids, entries, |entries|, k, true)
    && (LastSets(columns, ids, entries, |entries|, k, false) || LegacySets(columns, ids, saved, k))
  }

  // ---- where entries go depends on the panes alone ----

  ghost predicate SameRows(a: seq<Column>, b: seq<Column>) {
    |a| == |b| && forall i :: 0 <= i < |a| ==> a[i].panes == b[i].panes
  }

  lemma {:induction false} SameColumnById(a: seq<Column>, b: seq<Column>, ids: map<Pane, string>, id: string)
    requires SameRows(a, b)
    ensures ColumnById(a, ids, id) == ColumnById(b, ids, id)
  {
    if a != [] {
      SameColumnById(a[1..], b[1..], ids, id);
    }
  }

  lemma SameLegacy(a: seq<Column>, b: seq<Column>, ids: map<Pane, string>, saved: SavedStrip)
    requires SameRows(a, b)
    ensures LegacyMaximized(a, ids, saved) == LegacyMaximized(b, ids, saved)
  {
    if saved.maximizedPaneId.Some? {
      SameColumnById(a, b, ids, saved.maximizedPaneId.value);
    }
  }

  lemma {:induction false} StepOfLastSets(columns: seq<Column>, ids: map<Pane, string>, entries: seq<SavedColumn>, n: nat, k: nat, half: bool)
    requires 0 < n <= |entries|
    ensures LastSets(columns, ids, entries, n, k, half) <==>
            if AppliesTo(columns, ids, entries, n - 1, k) && Says(entries[n - 1], half).Some?
            then Says(entries[n - 1], half).value
            else LastSets(columns, ids, entries, n - 1, k, half)
  {
    var decides := AppliesTo(columns, ids, entries, n - 1, k) && Says(entries[n - 1], half).Some?;
    if LastSets(columns, ids, entries, n, k, half) {
      var i :| 0 <= i < n && SetsForGood(columns, ids, entries, n, k, half, i);
      if i < n - 1 {
        assert SetsForGood(columns, ids, entries, n - 1, k, half, i);
      }
    }
    if decides && Says(entries[n - 1], half).value {
      assert SetsForGood(columns, ids, entries, n, k, half, n - 1);
    }
    if !decides && LastSets(columns, ids, entries, n - 1, k, half) {
      var i :| 0 <= i < n - 1 && SetsForGood(columns, ids, entries, n - 1, k, half, i);
      assert SetsForGood(columns, ids, entries, n, k, half, i);
    }
  }

  /** After a pass over entries, a flag that was clear is set exactly where the
      last entry to mention it sets it. */
  lemma {:induction false} PassFlags(start: seq<Column>, columns: seq<Column>, ids: map<Pane, string>, entries: seq<SavedColumn>, n: nat, k: nat, half: bool)
    requires n <= |entries| && SameRows(start, columns) && k < |start| && !Flag(start[k], half)
    ensures SameRows(SecondPass(start, ids, entries, n), columns)
    ensures Flag(SecondPass(start, ids, entries, n)[k], half) <==> LastSets(columns, ids, entries, n, k, half)
  {
    if n > 0 {
      PassFlags(start, columns, ids, entries, n - 1, k, half);
      StepOfLastSets(columns, ids, entries, n, k, half);
      var passed, e := SecondPass(start, ids, entries, n - 1), entries[n - 1];
      if e.SavedColumn? {
        SameColumnById(passed, columns, ids, e.paneId);
      }
    }
  }

  lemma {:induction false} AnyMaximizedMeans(start: seq<Column>, columns: seq<Column>, ids: map<Pane, string>, entries: seq<SavedColumn>, n: nat)
    requires n <= |entries| && SameRows(start, columns)
    ensures SameRows(SecondPass(start, ids, entries, n), columns)
    ensures AnyMaximized(start, ids, entries, n) <==> exists i :: 0 <= i < n && Maximizes(columns, ids, entries, i)
  {
    if n > 0 {
      AnyMaximizedMeans(start, columns, ids, entries, n - 1);
      var e := entries[n - 1];
      if e.SavedColumn? {
        SameColumnById(SecondPass(start, ids, entries, n - 1), columns, ids, e.paneId);
      }
      if AnyMaximized(start, ids, entries, n) && !Maximizes(columns, ids, entries, n - 1) {
        assert AnyMaximized(start, ids, entries, n - 1);
      }
    }
  }

  /** The flags that a saved state gives to the columns. */
  lemma SettingsFlags(columns: seq<Column>, focusedCol: int, ids: map<Pane, string>, saved: SavedStrip, k: nat)
    requires k < |columns|
    ensures var c := Settings(columns, focusedCol, ids, saved).0[k];
            c.maximized && c.halfMaximized <==> AsksForBoth(columns, ids, saved, k)
  {
    var entries, reset := Entries(saved), ResetColumns(columns);
    PassFlags(reset, columns, ids, entries, |entries|, k, true);
    PassFlags(reset, columns, ids, entries, |entries|, k, false);
    AnyMaximizedMeans(reset, columns, ids, entries, |entries|);
    SameLegacy(FocusSavedPane(SecondPass(reset, ids, entries, |entries|), ids, saved), columns, ids, saved);
  }

  // ---- the invariant of a restored strip ----

  /** The columns a restore starts from. */
  function Base(s: Strip, ws: Workspace, saved: SavedStrip): seq<Column> {
    if Rebuild(ws, saved).Some? then Rebuild(ws, saved).value else s.columns
  }

  lemma LayoutKeepsColumns(s: Strip, i: nat, width: int)
    requires i < |s.columns| && Sound(FocusColumn(ApplyLayout(s, width), i, width))
    requires forall k :: 0 <= k < |s.columns| ==> 0.0 <= s.columns[k].currentWidth
    ensures Inv(FocusColumn(ApplyLayout(s, width), i, width)) <==>
            forall k :: 0 <= k < |s.columns| ==> !(s.columns[k].maximized && s.columns[k].halfMaximized)
  {
    var s' := FocusColumn(ApplyLayout(s, width), i, width);
    LaidOutAndFocused(s, i, width);
    assert s'.ticking;
    forall k | 0 <= k < |s.columns|
      ensures ColumnInv(s'.columns[k]) <==> !(s.columns[k].maximized && s.columns[k].halfMaximized)
    {
    }
  }

  /** A restored strip satisfies the invariant, so that every run from it does,
      exactly when the file asks for no column to be zoomed both ways. */
  lemma RestoreKeepsInvIff(s: Strip, ws: Workspace, saved: SavedStrip, width: int)
    requires Sound(s) && Distinct(ws.panes) && multiset(Panes(s)) == multiset(ws.panes)
    ensures var columns := Base(s, ws, saved);
            Inv(Restore(s, ws, Some(saved), width).0) <==>
            forall k :: 0 <= k < |columns| ==> !AsksForBoth(columns, ws.ids, saved, k)
  {
    var columns := Base(s, ws, saved);
    RestoreIsSound(s, ws, Some(saved), width);
    if Rebuild(ws, saved).Some? {
      RebuildPermutesPanes(ws, saved);
    }
    var settings := Settings(columns, s.focusedCol, ws.ids, saved);
    SettingsKeep(columns, s.focusedCol, ws.ids, saved);
    forall k | 0 <= k < |columns|
      ensures settings.0[k].maximized && settings.0[k].halfMaximized <==> AsksForBoth(columns, ws.ids, saved, k)
    {
      SettingsFlags(columns, s.focusedCol, ws.ids, saved, k);
    }
    LayoutKeepsColumns(s.(columns := settings.0, focusedCol := settings.1), settings.1, width);
  }

  /** Every entry mentions both flags or neither, and never sets both. */
  predicate SaysBothOrNone(entries: seq<SavedColumn>) {
    forall i :: 0 <= i < |entries| ==>
      && (Says(entries[i], true).Some? <==> Says(entries[i], false).Some?)
      && !(Says(entries[i], true) == Says(entries[i], false) == Some(true))
  }

  /** The members of older files say nothing. */
  predicate LegacySilent(saved: SavedStrip) {
    && (saved.maximizedPaneId.None? || saved.maximizedPaneId.value == "")
    && (saved.maximizedColumn.None? || CInt(saved.maximizedColumn.value) < 0)
  }

  lemma OneEntryDecides(columns: seq<Column>, ids: map<Pane, string>, entries: seq<SavedColumn>, n: nat, k: nat, i: nat, j: nat)
    requires SaysBothOrNone(entries) && i < n <= |entries| && j < n
    requires SetsForGood(columns, ids, entries, n, k, true, i)
    ensures !SetsForGood(columns, ids, entries, n, k, false, j)
  {
  }

  /** A file of the present form, or of the older one, asks for no column to be
      zoomed both ways. */
  lemma TidyFilesAskForOne(columns: seq<Column>, ids: map<Pane, string>, saved: SavedStrip, k: nat)
    requires SaysBothOrNone(Entries(saved))
    requires || LegacySilent(saved)
             || (exists i :: 0 <= i < |Entries(saved)| && Maximizes(columns, ids, Entries(saved), i))
             || (forall i :: 0 <= i < |Entries(saved)| ==> Says(Entries(saved)[i], true) != Some(true))
    ensures !AsksForBoth(columns, ids, saved, k)
  {
    var entries := Entries(saved);
    var n := |entries|;
    if LastSets(columns, ids, entries, n, k, true) {
      var i :| 0 <= i < n && SetsForGood(columns, ids, entries, n, k, true, i);
      forall j | 0 <= j < n ensures !SetsForGood(columns, ids, entries, n, k, false, j) {
        OneEntryDecides(columns, ids, entries, n, k, i, j);
      }
    }
  }

  lemma SavedEntrySays(s: Strip, ids: map<Pane, string>, columns: seq<Column>, ids': map<Pane, string>, i: nat)
    requires i < |s.columns| <= |columns|
    ensures var e := Entries(Save(s, ids))[i];
            && Says(e, true) == Some(s.columns[i].halfMaximized)
            && Says(e, false) == Some(s.columns[i].maximized)
            && TargetIndex(columns, ids', e, i) >= 0
  {
  }

  lemma SavedLegacyIsSilent(s: Strip, ids: map<Pane, string>)
    requires FirstMaximized(s.columns) == -1
    ensures LegacySilent(Save(s, ids))
  {
  }

  lemma SavedFilesAreTidy(s: Strip, ids: map<Pane, string>, columns: seq<Column>, ids': map<Pane, string>, k: nat)
    requires Shape(s) && |s.columns| <= |columns|
    ensures !AsksForBoth(columns, ids', Save(s, ids), k)
  {
    var saved := Save(s, ids);
    var m := FirstMaximized(s.columns);
    forall i | 0 <= i < |s.columns|
      ensures Says(Entries(saved)[i], true) == Some(s.columns[i].halfMaximized)
      ensures Says(Entries(saved)[i], false) == Some(s.columns[i].maximized)
    {
      SavedEntrySays(s, ids, columns, ids', i);
    }
    assert forall i :: 0 <= i < |s.columns| ==> ColumnInv(s.columns[i]);
    if m >= 0 {
      var i :| 0 <= i < |s.columns| && s.columns[i].maximized;
      SavedEntrySays(s, ids, columns, ids', i);
      assert Maximizes(columns, ids', Entries(saved), i);
    } else {
      SavedLegacyIsSilent(s, ids);
    }
    TidyFilesAskForOne(columns, ids', saved, k);
  }

  /** What a strip with the invariant saves restores to one with the invariant,
      wherever all its panes are known. */
  lemma SavedRestoresInv(s: Strip, ids: map<Pane, string>, target: Strip, ws: Workspace, width: int)
    requires Shape(s) && RoundTrip.Restorable(s.columns, ids, ws)
    requires Sound(target) && multiset(Panes(target)) == multiset(ws.panes)
    ensures Inv(Restore(target, ws, Some(Save(s, ids)), width).0)
  {
    var columns := Base(target, ws, Save(s, ids));
    RoundTrip.RebuildGivesCopies(s, ids, ws);
    forall k | 0 <= k < |columns| ensures !AsksForBoth(columns, ws.ids, Save(s, ids), k) {
      SavedFilesAreTidy(s, ids, columns, ws.ids, k);
    }
    RestoreKeepsInvIff(target, ws, Save(s, ids), width);
  }

  /** A file that half-maximizes the first column in the present form and
      maximizes it in the older one: into whatever strip it is restored, the
      first column ends up both. */
  lemma OldAndNewCanClash(s: Strip, ws: Workspace, saved: SavedStrip, width: int)
    requires Sound(s) && Distinct(ws.panes) && multiset(Panes(s)) == multiset(ws.panes)
    requires saved == SavedStrip(Some([SavedColumn("", None, None, None, None, None, Some(true))]), None, None, Some(0), None)
    ensures !Inv(Restore(s, ws, Some(saved), width).0)
  {
    var columns, entries := Base(s, ws, saved), Entries(saved);
    assert columns != [];
    assert entries[0].paneId == "" && TargetIndex(columns, ws.ids, entries[0], 0) == 0;
    assert SetsForGood(columns, ws.ids, entries, 1, 0, true, 0);
    assert LegacySets(columns, ws.ids, saved, 0);
    assert AsksForBoth(columns, ws.ids, saved, 0);
    RestoreKeepsInvIff(s, ws, saved, width);
  }
}
