/**
  Saving a strip and restoring it into a workspace whose panes carry the saved
  ids gives the strip back (src/gtk/session.c:419-960).
 */
module SessionStripRoundTrip {
  import opened Options
  import opened Sequences
  import opened StripModel
  import opened StripInvariants
  import opened SessionStrip
  import SessionStripCorrupt

  /** No two panes of the workspace share an id. */
  ghost predicate IdsTell(panes: seq<Pane>, ids: map<Pane, string>) {
    forall p, q :: p in panes && q in panes && IdOf(ids, p) == IdOf(ids, q) && IdOf(ids, p) != "" ==> p == q
  }

  /** A pane has an id, and the workspace a pane with that id. */
  ghost predicate Known(p: Pane, ids: map<Pane, string>, ws: Workspace) {
    IdOf(ids, p) != "" && exists q :: q in ws.panes && IdOf(ws.ids, q) == IdOf(ids, p)
  }

  /** The columns can be saved without loss and the workspace can take them. */
  ghost predicate Restorable(columns: seq<Column>, ids: map<Pane, string>, ws: Workspace) {
    && Distinct(ws.panes) && IdsTell(ws.panes, ws.ids)
    && Distinct(Flatten(Rows(columns))) && IdsTell(Flatten(Rows(columns)), ids)
    && (forall p :: p in Flatten(Rows(columns)) ==> Known(p, ids, ws))
    && forall i :: 0 <= i < |columns| ==>
         0 <= columns[i].focusedPane < |columns[i].panes| && 0 < columns[i].targetWidth < 0x8000_0000
  }

  /** The workspace's pane with the id of a saved one. */
  function Copy(p: Pane, ids: map<Pane, string>, ws: Workspace): Pane {
    var q := PaneById(ws.panes, ws.ids, IdOf(ids, p));
    if q.Some? then q.value else p
  }

  function CopyAll(ps: seq<Pane>, ids: map<Pane, string>, ws: Workspace): (r: seq<Pane>)
    ensures |r| == |ps|
    ensures forall i :: 0 <= i < |ps| ==> r[i] == Copy(ps[i], ids, ws)
  {
    seq(|ps|, i requires 0 <= i < |ps| => Copy(ps[i], ids, ws))
  }

  function CopyColumn(c: Column, ids: map<Pane, string>, ws: Workspace): Column {
    c.(panes := CopyAll(c.panes, ids, ws), currentWidth := c.targetWidth as real)
  }

  function CopyColumns(columns: seq<Column>, ids: map<Pane, string>, ws: Workspace): (r: seq<Column>)
    ensures |r| == |columns|
    ensures forall i :: 0 <= i < |columns| ==> r[i] == CopyColumn(columns[i], ids, ws)
  {
    seq(|columns|, i requires 0 <= i < |columns| => CopyColumn(columns[i], ids, ws))
  }

  lemma CopyHasTheId(p: Pane, ids: map<Pane, string>, ws: Workspace)
    requires Known(p, ids, ws)
    ensures var q := Copy(p, ids, ws);
            q in ws.panes && IdOf(ws.ids, q) == IdOf(ids, p) && PaneById(ws.panes, ws.ids, IdOf(ids, p)) == Some(q)
  {
  }

  lemma IdsTellParts(a: seq<Pane>, b: seq<Pane>, ids: map<Pane, string>)
    requires IdsTell(a + b, ids)
    ensures IdsTell(a, ids) && IdsTell(b, ids)
  {
    assert forall p :: p in a || p in b ==> p in a + b;
  }

  lemma RestorableTail(columns: seq<Column>, ids: map<Pane, string>, ws: Workspace)
    requires Restorable(columns, ids, ws) && columns != []
    ensures Restorable(columns[1..], ids, ws)
    ensures Flatten(Rows(columns)) == columns[0].panes + Flatten(Rows(columns[1..]))
    ensures Distinct(columns[0].panes) && IdsTell(columns[0].panes, ids)
    ensures forall p :: p in columns[0].panes ==> Known(p, ids, ws)
    ensures forall p :: p in columns[0].panes ==> p !in Flatten(Rows(columns[1..]))
  {
    assert columns == [columns[0]] + columns[1..];
    var row, rest := columns[0].panes, Flatten(Rows(columns[1..]));
    SessionStripCorrupt.FlattenCons(columns[0], columns[1..]);
    DistinctParts(row, rest);
    IdsTellParts(row, rest, ids);
  }

  /** Every listed pane exists and is still free, so every one is collected. */
  lemma {:induction false} CollectCopies(ps: seq<Pane>, ids: map<Pane, string>, ws: Workspace, seen: set<Pane>)
    requires Distinct(ps) && IdsTell(ps, ids)
    requires forall p :: p in ps ==> Known(p, ids, ws) && Copy(p, ids, ws) !in seen
    ensures Collect(SavedIds(ps, ids), ws, seen) == CopyAll(ps, ids, ws)
  {
    if ps == [] {
    } else {
      var q := Copy(ps[0], ids, ws);
      CollectOneCopy(ps, ids, ws, seen);
      CollectCopies(ps[1..], ids, ws, seen + {q});
      CopyAllCons(ps, ids, ws);
    }
  }

  lemma CollectOneCopy(ps: seq<Pane>, ids: map<Pane, string>, ws: Workspace, seen: set<Pane>)
    requires ps != [] && Distinct(ps) && IdsTell(ps, ids)
    requires forall p :: p in ps ==> Known(p, ids, ws) && Copy(p, ids, ws) !in seen
    ensures var q := Copy(ps[0], ids, ws);
            && Collect(SavedIds(ps, ids), ws, seen) == [q] + Collect(SavedIds(ps[1..], ids), ws, seen + {q})
            && forall p :: p in ps[1..] ==> Copy(p, ids, ws) !in seen + {q}
  {
    CopyHasTheId(ps[0], ids, ws);
    assert SavedIds(ps, ids)[1..] == SavedIds(ps[1..], ids);
    forall p | p in ps[1..] ensures Copy(p, ids, ws) != Copy(ps[0], ids, ws) {
      CopyHasTheId(p, ids, ws);
    }
  }

  lemma CopyAllCons(ps: seq<Pane>, ids: map<Pane, string>, ws: Workspace)
    requires ps != []
    ensures CopyAll(ps, ids, ws) == [Copy(ps[0], ids, ws)] + CopyAll(ps[1..], ids, ws)
  {
  }

  lemma {:induction false} IndexOfId(panes: seq<Pane>, ids: map<Pane, string>, k: nat)
    requires k < |panes| && IdOf(ids, panes[k]) != ""
    requires forall j :: 0 <= j < k ==> IdOf(ids, panes[j]) != IdOf(ids, panes[k])
    ensures IndexById(panes, ids, IdOf(ids, panes[k])) == k
  {
    if k > 0 {
      IndexOfId(panes[1..], ids, k - 1);
    }
  }

  lemma {:induction false} ColumnOfId(columns: seq<Column>, ids: map<Pane, string>, id: string, k: nat)
    requires k < |columns| && id != "" && IndexById(columns[k].panes, ids, id) >= 0
    requires forall j :: 0 <= j < k ==> IndexById(columns[j].panes, ids, id) < 0
    ensures ColumnById(columns, ids, id) == k
  {
    if k > 0 {
      ColumnOfId(columns[1..], ids, id, k - 1);
    }
  }

  /** A copied column can be searched for any of its ids. */
  lemma IndexInCopy(ps: seq<Pane>, ids: map<Pane, string>, ws: Workspace, k: nat)
    requires k < |ps| && Distinct(ps) && IdsTell(ps, ids)
    requires forall p :: p in ps ==> Known(p, ids, ws)
    ensures IndexById(CopyAll(ps, ids, ws), ws.ids, IdOf(ids, ps[k])) == k
  {
    forall j | 0 <= j < |ps|
      ensures IdOf(ws.ids, CopyAll(ps, ids, ws)[j]) == IdOf(ids, ps[j]) && IdOf(ids, ps[j]) != ""
    {
      assert ps[j] in ps;
      CopyHasTheId(ps[j], ids, ws);
    }
    IndexOfId(CopyAll(ps, ids, ws), ws.ids, k);
  }

  lemma SmallWidthsSurvive(w: int)
    requires 0 < w < 0x8000_0000
    ensures WidthOr600(CInt(w)) == w
  {
  }

  lemma BuildCopies(c: Column, ids: map<Pane, string>, ws: Workspace)
    requires Restorable([c], ids, ws)
    ensures BuildColumn(SaveColumn(c, ids), CopyAll(c.panes, ids, ws), ws.ids) == CopyColumn(c, ids, ws)
    ensures UpdateColumn(SaveColumn(c, ids), ResetColumn(CopyColumn(c, ids, ws)), ws.ids) == CopyColumn(c, ids, ws)
  {
    RestorableTail([c], ids, ws);
    IndexInCopy(c.panes, ids, ws, c.focusedPane);
    SmallWidthsSurvive(c.targetWidth);
  }

  lemma RestorableOne(columns: seq<Column>, ids: map<Pane, string>, ws: Workspace)
    requires Restorable(columns, ids, ws) && columns != []
    ensures Restorable([columns[0]], ids, ws)
  {
    RestorableTail(columns, ids, ws);
    SessionStripCorrupt.FlattenCons(columns[0], []);
    assert [columns[0]] + [] == [columns[0]];
    assert columns[0].panes + [] == columns[0].panes;
    assert forall p :: p in columns[0].panes ==> p in Flatten(Rows(columns));
  }

  /** The panes of a list of columns, as a set, once copied. */
  function Placed(columns: seq<Column>, ids: map<Pane, string>, ws: Workspace): set<Pane> {
    set p | p in Flatten(Rows(columns)) :: Copy(p, ids, ws)
  }

  ghost predicate NoneSeen(columns: seq<Column>, ids: map<Pane, string>, ws: Workspace, seen: set<Pane>) {
    forall p :: p in Flatten(Rows(columns)) ==> Copy(p, ids, ws) !in seen
  }

  /** The first pass makes one column of each saved one, and then one of each
      pane the saved state does not know. */
  lemma {:induction false} RebuildCopies(columns: seq<Column>, ids: map<Pane, string>, ws: Workspace, seen: set<Pane>)
    requires Restorable(columns, ids, ws)
    requires NoneSeen(columns, ids, ws, seen)
    ensures RebuildFrom(SaveColumns(columns, ids), ws, seen) ==
            CopyColumns(columns, ids, ws) + Leftovers(ws.panes, seen + Placed(columns, ids, ws))
  {
    if columns == [] {
      assert Placed(columns, ids, ws) == {};
      assert seen + Placed(columns, ids, ws) == seen;
      assert SaveColumns(columns, ids) == [];
      assert CopyColumns(columns, ids, ws) == [];
      var spare := Leftovers(ws.panes, seen);
      assert [] + spare == spare;
    } else {
      var rest, placed := columns[1..], SetOf(CopyAll(columns[0].panes, ids, ws));
      RebuildOneCopy(columns, ids, ws, seen);
      RebuildCopies(rest, ids, ws, seen + placed);
      PlacedCons(columns, ids, ws);
      UnionAssociates(seen, placed, Placed(rest, ids, ws));
      CopyColumnsCons(columns, ids, ws);
      ConcatAssociates([CopyColumn(columns[0], ids, ws)], CopyColumns(rest, ids, ws),
                       Leftovers(ws.panes, seen + Placed(columns, ids, ws)));
    }
  }

  lemma CopyColumnsCons(columns: seq<Column>, ids: map<Pane, string>, ws: Workspace)
    requires columns != []
    ensures CopyColumns(columns, ids, ws) == [CopyColumn(columns[0], ids, ws)] + CopyColumns(columns[1..], ids, ws)
  {
  }

  lemma UnionAssociates(a: set<Pane>, b: set<Pane>, c: set<Pane>)
    ensures a + b + c == a + (b + c)
  {
  }

  lemma RebuildOneCopy(columns: seq<Column>, ids: map<Pane, string>, ws: Workspace, seen: set<Pane>)
    requires Restorable(columns, ids, ws) && columns != []
    requires NoneSeen(columns, ids, ws, seen)
    ensures Restorable(columns[1..], ids, ws)
    ensures var placed := SetOf(CopyAll(columns[0].panes, ids, ws));
            && NoneSeen(columns[1..], ids, ws, seen + placed)
            && RebuildFrom(SaveColumns(columns, ids), ws, seen) ==
               [CopyColumn(columns[0], ids, ws)] + RebuildFrom(SaveColumns(columns[1..], ids), ws, seen + placed)
  {
    var saved := SaveColumns(columns, ids);
    assert saved[0] == SaveColumn(columns[0], ids) && saved[1..] == SaveColumns(columns[1..], ids);
    FirstEntryCopies(columns, ids, ws, seen);
    RestorableOne(columns, ids, ws);
    BuildCopies(columns[0], ids, ws);
    OthersStillUnseen(columns, ids, ws, seen);
    RestorableTail(columns, ids, ws);
  }

  lemma FirstEntryCopies(columns: seq<Column>, ids: map<Pane, string>, ws: Workspace, seen: set<Pane>)
    requires Restorable(columns, ids, ws) && columns != []
    requires NoneSeen(columns, ids, ws, seen)
    ensures EntryPanes(SaveColumn(columns[0], ids), ws, seen) == CopyAll(columns[0].panes, ids, ws)
  {
    var c := columns[0];
    RestorableTail(columns, ids, ws);
    assert forall p :: p in c.panes ==> p in Flatten(Rows(columns));
    CollectCopies(c.panes, ids, ws, seen);
  }

  lemma OthersStillUnseen(columns: seq<Column>, ids: map<Pane, string>, ws: Workspace, seen: set<Pane>)
    requires Restorable(columns, ids, ws) && columns != []
    requires NoneSeen(columns, ids, ws, seen)
    ensures NoneSeen(columns[1..], ids, ws, seen + SetOf(CopyAll(columns[0].panes, ids, ws)))
  {
    RestorableTail(columns, ids, ws);
    forall p | p in Flatten(Rows(columns[1..])) ensures Copy(p, ids, ws) !in CopyAll(columns[0].panes, ids, ws) {
      NotAmongCopies(p, columns[0].panes, ids, ws, Flatten(Rows(columns)));
    }
  }

  /** Different saved panes have different copies. */
  lemma NotAmongCopies(p: Pane, ps: seq<Pane>, ids: map<Pane, string>, ws: Workspace, all: seq<Pane>)
    requires IdsTell(all, ids) && p in all && p !in ps && forall q :: q in ps ==> q in all
    requires forall q :: q in all ==> Known(q, ids, ws)
    ensures Copy(p, ids, ws) !in CopyAll(ps, ids, ws)
  {
    forall i | 0 <= i < |ps| ensures CopyAll(ps, ids, ws)[i] != Copy(p, ids, ws) {
      assert ps[i] in ps;
      CopyHasTheId(ps[i], ids, ws);
      CopyHasTheId(p, ids, ws);
    }
  }

  lemma PlacedCons(columns: seq<Column>, ids: map<Pane, string>, ws: Workspace)
    requires columns != []
    ensures Placed(columns, ids, ws) == SetOf(CopyAll(columns[0].panes, ids, ws)) + Placed(columns[1..], ids, ws)
  {
    assert columns == [columns[0]] + columns[1..];
    SessionStripCorrupt.FlattenCons(columns[0], columns[1..]);
    forall q | q in SetOf(CopyAll(columns[0].panes, ids, ws)) ensures q in Placed(columns, ids, ws) {
      var i :| 0 <= i < |columns[0].panes| && CopyAll(columns[0].panes, ids, ws)[i] == q;
      assert columns[0].panes[i] in Flatten(Rows(columns));
    }
    forall q | q in Placed(columns, ids, ws)
      ensures q in SetOf(CopyAll(columns[0].panes, ids, ws)) + Placed(columns[1..], ids, ws)
    {
      var p :| p in Flatten(Rows(columns)) && Copy(p, ids, ws) == q;
      if p in columns[0].panes {
        var i :| 0 <= i < |columns[0].panes| && columns[0].panes[i] == p;
        assert CopyAll(columns[0].panes, ids, ws)[i] == q;
      }
    }
  }

  // ---- the second pass ----

  lemma RowOf(columns: seq<Column>, i: nat, p: Pane)
    requires i < |columns| && p in columns[i].panes
    ensures p in Flatten(Rows(columns))
  {
    assert Rows(columns)[i] == columns[i].panes;
    InFlatten(Rows(columns), p);
  }

  lemma {:induction false} RowsApart(columns: seq<Column>, i: nat, j: nat, p: Pane)
    requires i < j < |columns| && Distinct(Flatten(Rows(columns))) && p in columns[j].panes
    ensures p !in columns[i].panes
  {
    assert columns == [columns[0]] + columns[1..];
    SessionStripCorrupt.FlattenCons(columns[0], columns[1..]);
    DistinctParts(columns[0].panes, Flatten(Rows(columns[1..])));
    if i == 0 {
      RowOf(columns[1..], j - 1, p);
    } else {
      RowsApart(columns[1..], i - 1, j - 1, p);
    }
  }

  /** Looking a saved column up by any of its panes finds its copy. */
  lemma FindCopy(columns: seq<Column>, ids: map<Pane, string>, ws: Workspace, r: seq<Column>, k: nat, m: nat)
    requires Restorable(columns, ids, ws) && |r| >= |columns|
    requires forall i :: 0 <= i < |columns| ==> r[i].panes == CopyAll(columns[i].panes, ids, ws)
    requires k < |columns| && m < |columns[k].panes|
    ensures ColumnById(r, ws.ids, IdOf(ids, columns[k].panes[m])) == k
    ensures IndexById(r[k].panes, ws.ids, IdOf(ids, columns[k].panes[m])) == m
    ensures IdOf(ids, columns[k].panes[m]) != ""
  {
    var p, all := columns[k].panes[m], Flatten(Rows(columns));
    RowOf(columns, k, p);
    forall j, q | 0 <= j < |columns| && q in columns[j].panes ensures q in all {
      RowOf(columns, j, q);
    }
    RowDistinct(columns, k);
    IndexInCopy(columns[k].panes, ids, ws, m);
    forall j | 0 <= j < k ensures IndexById(r[j].panes, ws.ids, IdOf(ids, p)) < 0 {
      RowsApart(columns, j, k, p);
      forall i | 0 <= i < |r[j].panes| ensures IdOf(ws.ids, r[j].panes[i]) != IdOf(ids, p) {
        CopyHasTheId(columns[j].panes[i], ids, ws);
      }
    }
    ColumnOfId(r, ws.ids, IdOf(ids, p), k);
  }

  lemma {:induction false} RowDistinct(columns: seq<Column>, k: nat)
    requires k < |columns| && Distinct(Flatten(Rows(columns)))
    ensures Distinct(columns[k].panes)
  {
    FlattenAt(Rows(columns), k);
    DistinctParts(Flatten(Rows(columns)[..k]) + columns[k].panes, Flatten(Rows(columns)[k + 1..]));
    DistinctParts(Flatten(Rows(columns)[..k]), columns[k].panes);
  }

  lemma RestorableRow(columns: seq<Column>, ids: map<Pane, string>, ws: Workspace, k: nat)
    requires Restorable(columns, ids, ws) && k < |columns|
    ensures Restorable([columns[k]], ids, ws)
  {
    var c := columns[k];
    RowDistinct(columns, k);
    SessionStripCorrupt.FlattenCons(c, []);
    assert [c] + [] == [c] && c.panes + [] == c.panes;
    forall p | p in c.panes ensures p in Flatten(Rows(columns)) {
      RowOf(columns, k, p);
    }
  }

  /** The columns before the second pass: copies with their flags cleared, and
      whatever follows them. */
  ghost predicate Cleared(r: seq<Column>, columns: seq<Column>, ids: map<Pane, string>, ws: Workspace) {
    && |r| >= |columns|
    && forall i :: 0 <= i < |columns| ==> r[i] == ResetColumn(CopyColumn(columns[i], ids, ws))
  }

  /** ... and after `n` of its entries: the first `n` columns have their flags back. */
  ghost predicate FlagsBack(r: seq<Column>, start: seq<Column>, columns: seq<Column>, ids: map<Pane, string>, ws: Workspace, n: nat) {
    && |r| == |start| >= |columns| >= n
    && (forall i :: 0 <= i < n ==> r[i] == CopyColumn(columns[i], ids, ws))
    && (forall i :: n <= i < |r| ==> r[i] == start[i])
  }

  lemma EntryFindsItsColumn(r: seq<Column>, start: seq<Column>, columns: seq<Column>, ids: map<Pane, string>, ws: Workspace, n: nat)
    requires Restorable(columns, ids, ws) && Cleared(start, columns, ids, ws) && n < |columns|
    requires FlagsBack(r, start, columns, ids, ws, n)
    ensures TargetIndex(r, ws.ids, SaveColumn(columns[n], ids), n) == n
    ensures FlagsBack(ApplyEntry(r, ws.ids, SaveColumn(columns[n], ids), n), start, columns, ids, ws, n + 1)
  {
    forall i | 0 <= i < |columns| ensures r[i].panes == CopyAll(columns[i].panes, ids, ws) {
      assert start[i] == ResetColumn(CopyColumn(columns[i], ids, ws));
    }
    FindCopy(columns, ids, ws, r, n, columns[n].focusedPane);
    RestorableRow(columns, ids, ws, n);
    BuildCopies(columns[n], ids, ws);
    assert r[n] == start[n];
  }

  lemma {:induction false} SecondPassCopies(start: seq<Column>, columns: seq<Column>, ids: map<Pane, string>, ws: Workspace, n: nat)
    requires Restorable(columns, ids, ws) && Cleared(start, columns, ids, ws) && n <= |columns|
    ensures FlagsBack(SecondPass(start, ws.ids, SaveColumns(columns, ids), n), start, columns, ids, ws, n)
    ensures AnyMaximized(start, ws.ids, SaveColumns(columns, ids), n) <==> exists i :: 0 <= i < n && columns[i].maximized
  {
    if n > 0 {
      SecondPassCopies(start, columns, ids, ws, n - 1);
      EntryFindsItsColumn(SecondPass(start, ws.ids, SaveColumns(columns, ids), n - 1), start, columns, ids, ws, n - 1);
    }
  }

  /** The focus of the saved strip is found again by its id. */
  lemma FocusCopies(s: Strip, ids: map<Pane, string>, ws: Workspace, r: seq<Column>, focusedCol: int)
    requires Restorable(s.columns, ids, ws) && 0 <= s.focusedCol < |s.columns| <= |r|
    requires forall i :: 0 <= i < |s.columns| ==> r[i] == CopyColumn(s.columns[i], ids, ws)
    ensures FocusSavedPane(r, ws.ids, Save(s, ids)) == r
    ensures SavedFocusCol(r, focusedCol, ws.ids, Save(s, ids)) == s.focusedCol
  {
    var c := s.columns[s.focusedCol];
    FindCopy(s.columns, ids, ws, r, s.focusedCol, c.focusedPane);
    assert Save(s, ids).focusedPaneId == Some(IdOf(ids, c.panes[c.focusedPane]));
    assert r[s.focusedCol].(focusedPane := c.focusedPane) == r[s.focusedCol];
  }

  /** The members written for older readers do not disturb a newer one. */
  lemma LegacyIsIgnored(s: Strip, ids: map<Pane, string>, ws: Workspace, r: seq<Column>)
    requires forall i :: 0 <= i < |s.columns| ==> !s.columns[i].maximized
    ensures MarkLegacy(r, ws.ids, Save(s, ids)) == r
  {
    assert FirstMaximized(s.columns) == -1;
  }

  /** What a restored column has in common with the saved one: its panes in
      order (by id), the focused pane, both flags and, unless the column is
      zoomed and so sized by the window, its target width. */
  predicate SameColumn(c: Column, saved: Column, ids: map<Pane, string>, ws: Workspace) {
    && c.panes == CopyAll(saved.panes, ids, ws)
    && c.focusedPane == saved.focusedPane
    && c.maximized == saved.maximized && c.halfMaximized == saved.halfMaximized
    && (!saved.maximized && !saved.halfMaximized ==> c.targetWidth == saved.targetWidth)
  }

  lemma SettingsCopy(s: Strip, ids: map<Pane, string>, ws: Workspace, columns: seq<Column>, focusedCol: int)
    requires Restorable(s.columns, ids, ws) && 0 <= s.focusedCol < |s.columns| <= |columns|
    requires forall i :: 0 <= i < |s.columns| ==> columns[i] == CopyColumn(s.columns[i], ids, ws)
    ensures var settings := Settings(columns, focusedCol, ws.ids, Save(s, ids));
            && settings.1 == s.focusedCol
            && |settings.0| == |columns|
            && forall i :: 0 <= i < |s.columns| ==> settings.0[i] == CopyColumn(s.columns[i], ids, ws)
  {
    var reset, n := ResetColumns(columns), |s.columns|;
    assert Cleared(reset, s.columns, ids, ws);
    SecondPassCopies(reset, s.columns, ids, ws, n);
    var passed := SecondPass(reset, ws.ids, SaveColumns(s.columns, ids), n);
    FocusCopies(s, ids, ws, passed, focusedCol);
    if forall i :: 0 <= i < n ==> !s.columns[i].maximized {
      LegacyIsIgnored(s, ids, ws, passed);
    }
  }

  lemma {:induction false} NoLeftovers(panes: seq<Pane>, seen: set<Pane>)
    requires forall p :: p in panes ==> p in seen
    ensures Leftovers(panes, seen) == []
  {
    if panes != [] {
      NoLeftovers(panes[1..], seen);
    }
  }

  /** The columns that the first pass leaves. */
  function Rebuilt(s: Strip, ids: map<Pane, string>, ws: Workspace): seq<Column> {
    CopyColumns(s.columns, ids, ws) + Leftovers(ws.panes, Placed(s.columns, ids, ws))
  }

  lemma RebuildGivesCopies(s: Strip, ids: map<Pane, string>, ws: Workspace)
    requires Restorable(s.columns, ids, ws) && s.columns != []
    ensures Rebuild(ws, Save(s, ids)) == Some(Rebuilt(s, ids, ws))
  {
    RebuildCopies(s.columns, ids, ws, {});
    assert {} + Placed(s.columns, ids, ws) == Placed(s.columns, ids, ws);
  }

  lemma LaidOutCopies(settled: seq<Column>, columns: seq<Column>, ids: map<Pane, string>, ws: Workspace, viewport: int)
    requires viewport > 0 && |settled| >= |columns|
    requires forall i :: 0 <= i < |columns| ==> 0 < columns[i].targetWidth && settled[i] == CopyColumn(columns[i], ids, ws)
    ensures forall i :: 0 <= i < |columns| ==> SameColumn(LayOutColumns(settled, viewport)[i], columns[i], ids, ws)
  {
  }

  lemma RestoreUnfolds(target: Strip, ws: Workspace, saved: SavedStrip, columns: seq<Column>, width: int)
    requires |target.columns| > 0 && Rebuild(ws, saved) == Some(columns)
    requires 0 <= Settings(columns, target.focusedCol, ws.ids, saved).1 < |columns|
    ensures var (restored, settings) := (Restore(target, ws, Some(saved), width).0,
                                         Settings(columns, target.focusedCol, ws.ids, saved));
            && restored.columns == LayOutColumns(settings.0, Viewport(width))
            && restored.focusedCol == settings.1
  {
    var settings := Settings(columns, target.focusedCol, ws.ids, saved);
    SessionStripCorrupt.LaidOutAndFocused(
      target.(columns := settings.0, focusedCol := settings.1), settings.1, width);
  }

  /** Saving a strip whose panes have distinct ids and restoring it, into any
      strip, where panes with those ids are available: every column comes back
      with its panes, its focus, its flags and its width, the same column has
      the focus, and the only other columns are of panes unknown to the file. */
  lemma SaveRestoreRoundTrip(s: Strip, ids: map<Pane, string>, target: Strip, ws: Workspace, width: int)
    requires Shape(s) && Restorable(s.columns, ids, ws) && |target.columns| > 0
    ensures var restored := Restore(target, ws, Some(Save(s, ids)), width).0;
            && restored.focusedCol == s.focusedCol
            && |s.columns| <= |restored.columns|
            && (forall i :: 0 <= i < |s.columns| ==> SameColumn(restored.columns[i], s.columns[i], ids, ws))
            && ((forall p :: p in ws.panes ==> p in Placed(s.columns, ids, ws)) ==> |restored.columns| == |s.columns|)
  {
    var saved, columns := Save(s, ids), Rebuilt(s, ids, ws);
    RebuildGivesCopies(s, ids, ws);
    SettingsCopy(s, ids, ws, columns, target.focusedCol);
    RestoreUnfolds(target, ws, saved, columns, width);
    LaidOutCopies(Settings(columns, target.focusedCol, ws.ids, saved).0, s.columns, ids, ws, Viewport(width));
    if forall p :: p in ws.panes ==> p in Placed(s.columns, ids, ws) {
      NoLeftovers(ws.panes, Placed(s.columns, ids, ws));
    }
  }
}
