/**
  What each operation on a strip is for, said of the strip before and after it:
  widths, zoom, focus and the active pane.  The order of the panes is the subject
  of StripInvariants, the camera that of StripCamera.
 */
module StripEffects {
  import opened Options
  import opened Sequences
  import opened StripModel
  import opened StripInvariants

  /** The width of the window, or 600 before it has one. */
  function WindowWidth(width: int): (v: int)
    ensures v > 0
  {
    if width > 0 then width else 600
  }

  /** The width a column is to have once it has been laid out. */
  function DueWidth(c: Column, width: int): int {
    if c.maximized then WindowWidth(width)
    else if c.halfMaximized then WindowWidth(width) / 2
    else if c.targetWidth > 0 then c.targetWidth
    else 600
  }

  /** Column `c` laid out: it is on its way to the width that is due, from the
      width it is drawn with, if it was drawn at all. */
  ghost predicate LaidOutFrom(c': Column, c: Column, width: int) {
    && c' == c.(targetWidth := DueWidth(c, width), currentWidth := c'.currentWidth)
    && c'.currentWidth == if c.currentWidth > 0.0 then c.currentWidth else DueWidth(c, width) as real
  }

  ghost predicate OthersLaidOut(columns': seq<Column>, columns: seq<Column>, width: int, i: nat) {
    && |columns'| == |columns|
    && forall k :: 0 <= k < |columns| && k != i ==> LaidOutFrom(columns'[k], columns[k], width)
  }

  ghost predicate OthersEqual(columns': seq<Column>, columns: seq<Column>, i: nat) {
    && |columns'| == |columns|
    && forall k :: 0 <= k < |columns| && k != i ==> columns'[k] == columns[k]
  }

  /** The pane that a column with the invariant has its focus on. */
  function FocusOf(c: Column): Option<Pane>
    requires ColumnInv(c)
  {
    Some(c.panes[c.focusedPane])
  }

  // ---- zoom ----

  /** Maximizing gives the focused column the width of the window and undoing it
      600, the other zoom is off either way, and nothing else changes. */
  lemma ZoomZooms(s: Strip, width: int)
    requires Inv(s)
    ensures var (s', i) := (Apply(s, Zoom(width)), s.focusedCol);
            && OthersEqual(s'.columns, s.columns, i) && s'.focusedCol == i && s'.activePane == s.activePane
            && s'.columns[i] == s.columns[i].(
                 maximized := !s.columns[i].maximized, halfMaximized := false,
                 targetWidth := if s'.columns[i].maximized then WindowWidth(width) else 600)
            && s'.profile == Maximize && s'.ticking
  {
  }

  /** The same with half the window. */
  lemma HalfZoomZooms(s: Strip, width: int)
    requires Inv(s)
    ensures var (s', i) := (Apply(s, HalfZoom(width)), s.focusedCol);
            && OthersEqual(s'.columns, s.columns, i) && s'.focusedCol == i && s'.activePane == s.activePane
            && s'.columns[i] == s.columns[i].(
                 halfMaximized := !s.columns[i].halfMaximized, maximized := false,
                 targetWidth := if s'.columns[i].halfMaximized then WindowWidth(width) / 2 else 600)
            && s'.profile == Maximize && s'.ticking
  {
  }

  /** A zoom and a second one: the column is as before but for its width, which
      is 600 whatever it was. */
  lemma ZoomTwice(s: Strip, width: int, width': int)
    requires Inv(s) && !s.columns[s.focusedCol].maximized && !s.columns[s.focusedCol].halfMaximized
    ensures Apply(Apply(s, Zoom(width)), Zoom(width')).columns ==
            s.columns[s.focusedCol := s.columns[s.focusedCol].(targetWidth := 600)]
    ensures Apply(Apply(s, HalfZoom(width)), HalfZoom(width')).columns ==
            s.columns[s.focusedCol := s.columns[s.focusedCol].(targetWidth := 600)]
  {
    ZoomKeepsInv(s, width);
    ZoomZooms(s, width);
    ZoomZooms(Apply(s, Zoom(width)), width');
    HalfZoomZooms(s, width);
    HalfZoomZooms(Apply(s, HalfZoom(width)), width');
  }

  /** When the window is resized every maximized column takes its width, every
      half-maximized one half of it, and every other keeps its own. */
  lemma RelayoutFits(s: Strip, width: int)
    requires Inv(s)
    ensures var s' := Apply(s, Relayout(width));
            && OthersLaidOut(s'.columns, s.columns, width, |s.columns|)
            && s'.focusedCol == s.focusedCol && s'.activePane == s.activePane && s'.profile == s.profile
  {
  }

  // ---- focus ----

  /** Focusing a column makes the pane it has its focus on the active one. */
  lemma FocusFocuses(s: Strip, i: int, width: int)
    requires Inv(s)
    ensures var s' := Apply(s, FocusCol(i, width));
            if 0 <= i < |s.columns|
            then s'.columns == s.columns && s'.focusedCol == i && s'.activePane == FocusOf(s.columns[i])
            else s' == s
  {
  }

  /** The keyboard focus on a pane of the strip: that pane, and its column. */
  lemma EnterFocusesPane(s: Strip, p: Pane, width: int)
    requires Inv(s)
    ensures var (s', j) := (Apply(s, EnterPane(p, width)), Apply(s, EnterPane(p, width)).focusedCol);
            if p in Panes(s)
            then && 0 <= j < |s.columns| && p in s.columns[j].panes
                 && OthersEqual(s'.columns, s.columns, j)
                 && s'.columns[j] == s.columns[j].(focusedPane := s'.columns[j].focusedPane)
                 && 0 <= s'.columns[j].focusedPane < |s.columns[j].panes|
                 && FocusOf(s'.columns[j]) == Some(p) == s'.activePane
            else s' == s
  {
    InFlatten(Rows(s.columns), p);
    var i := FindColumn(s.columns, p);
    if i >= 0 {
      assert p in Rows(s.columns)[i];
    } else {
      assert forall k :: 0 <= k < |s.columns| ==> p !in Rows(s.columns)[k];
    }
  }

  /** Up and down go to the pane before and after, if there is one. */
  lemma MoveFocusMoves(s: Strip, up: bool)
    requires Inv(s)
    ensures var (s', i) := (Apply(s, MoveFocus(up)), s.focusedCol);
            var c := s.columns[i];
            var k := if up then c.focusedPane - 1 else c.focusedPane + 1;
            if 0 <= k < |c.panes|
            then s' == s.(columns := s.columns[i := c.(focusedPane := k)], activePane := Some(c.panes[k]))
            else s' == s
  {
  }

  /** Which column an operation is about: the focused one; should there be none,
      that of the active pane, else the first. */
  lemma ResolvedColumnIs(s: Strip)
    ensures 0 <= s.focusedCol < |s.columns| ==> ResolveFocusedCol(s) == Some(s.focusedCol)
    ensures !(0 <= s.focusedCol < |s.columns|) ==>
              match ResolveFocusedCol(s)
              case None => s.columns == []
              case Some(i) =>
                && i < |s.columns|
                && if s.activePane.Some? && s.activePane.value in Panes(s)
                   then s.activePane.value in s.columns[i].panes else i == 0
  {
    if s.activePane.Some? {
      InFlatten(Rows(s.columns), s.activePane.value);
      var i := FindColumn(s.columns, s.activePane.value);
      if i >= 0 {
        assert s.activePane.value in Rows(s.columns)[i];
      } else {
        assert forall k :: 0 <= k < |s.columns| ==> s.activePane.value !in Rows(s.columns)[k];
      }
    }
  }

  // ---- columns and panes come and go ----

  /** A new strip has one column of 600, drawn from its left edge. */
  lemma CreateCreates(p: Pane, width: int, active: Option<Pane>)
    ensures var s := CreateRoot(p, width, active);
            && s.columns == [Column([p], 0, 600, 600.0, false, false)] && s.focusedCol == 0
            && s.cameraX == 0.0 && s.profile == Default && s.activePane == active
  {
  }

  /** A column that is appended is 600 wide from the start, and not focused. */
  lemma AddAppends(s: Strip, p: Pane)
    requires Inv(s)
    ensures Apply(s, AddCol(p)) == s.(columns := s.columns + [Column([p], 0, 600, 600.0, false, false)])
  {
  }

  /** A column that is inserted grows from 180 to 600, and its pane is active. */
  lemma InsertInserts(s: Strip, p: Pane, width: int)
    requires Inv(s)
    ensures var (s', i) := (Apply(s, InsertCol(p, width)), s.focusedCol + 1);
            var all := s.columns[..i] + [Column([p], 0, 600, 180.0, false, false)] + s.columns[i..];
            && OthersLaidOut(s'.columns, all, width, |all|)
            && s'.focusedCol == i && s'.activePane == Some(p) && s'.profile == Insert
  {
    var w := WithColumn(s, s.focusedCol + 1, p);
    assert w.columns[s.focusedCol + 1] == NewColumn(p, INSERT_START_WIDTH);
  }

  /** How much of its width the neighbour of a removed column gives back: a fifth
      of what was removed, but no more than 120. */
  function GivenBack(gone: Column): real {
    var w := if gone.currentWidth > 0.0 then gone.currentWidth
             else if gone.targetWidth > 0 then gone.targetWidth as real else 600.0;
    if w <= 600.0 then w / 5.0 else 120.0
  }

  function Shrunk(drawn: real, gone: Column): real {
    if drawn - GivenBack(gone) > 300.0 then drawn - GivenBack(gone) else 300.0
  }

  /** The column that takes over is drawn narrower by that, but at least 300 wide;
      the others are laid out as they are. */
  lemma RemoveSettles(s: Strip, width: int)
    requires Inv(s) && |s.columns| > 1
    ensures var (s', i) := (Apply(s, RemoveCol(width)), s.focusedCol);
            var rest := s.columns[..i] + s.columns[i + 1..];
            var j := if i < |rest| then i else i - 1;
            && OthersLaidOut(s'.columns, rest, width, j)
            && s'.columns[j] == rest[j].(targetWidth := DueWidth(rest[j], width),
                                         currentWidth := Shrunk(rest[j].currentWidth, s.columns[i]))
            && s'.focusedCol == j && s'.activePane == FocusOf(rest[j]) && s'.profile == Remove
  {
    var rest := s.columns[..s.focusedCol] + s.columns[s.focusedCol + 1..];
    var cut := CutColumnIs(s, rest);
    var drawn := Shrunk(rest[cut.focusedCol].currentWidth, s.columns[s.focusedCol]);
    RemovedIsLaidOut(s, cut, drawn, width);
    SettledIsLaidOut(rest, cut.focusedCol, drawn, width);
  }

  lemma CutColumnIs(s: Strip, rest: seq<Column>) returns (cut: Strip)
    requires Inv(s) && |s.columns| > 1 && rest == s.columns[..s.focusedCol] + s.columns[s.focusedCol + 1..]
    ensures cut == CutColumn(s, s.focusedCol)
    ensures forall k :: 0 <= k < |rest| ==> ColumnInv(rest[k])
    ensures var j := if s.focusedCol < |rest| then s.focusedCol else s.focusedCol - 1;
            0 <= j < |rest| && cut == s.(columns := rest, focusedCol := j, activePane := FocusOf(rest[j]))
  {
    cut := CutColumn(s, s.focusedCol);
    forall k | 0 <= k < |rest| ensures ColumnInv(rest[k]) {
      assert rest[k] == s.columns[if k < s.focusedCol then k else k + 1];
    }
  }

  lemma SettleGivesBack(s: Strip, i: nat, gone: Column, removedWidth: real)
    requires i < |s.columns| && ColumnInv(gone)
    requires removedWidth == if gone.currentWidth > 0.0 then gone.currentWidth else gone.targetWidth as real
    ensures var c := s.columns[i];
            SettleAfterRemove(s, i, removedWidth) ==
            s.(columns := s.columns[i := c.(currentWidth := Shrunk(c.currentWidth, gone))])
  {
  }

  lemma RemovedIsLaidOut(s: Strip, cut: Strip, drawn: real, width: int)
    requires Inv(s) && |s.columns| > 1 && cut == CutColumn(s, s.focusedCol) && 0 <= cut.focusedCol < |cut.columns|
    requires drawn == Shrunk(cut.columns[cut.focusedCol].currentWidth, s.columns[s.focusedCol])
    ensures var (s', j) := (Apply(s, RemoveCol(width)), cut.focusedCol);
            && s'.columns == LayOutColumns(cut.columns[j := cut.columns[j].(currentWidth := drawn)], WindowWidth(width))
            && s'.focusedCol == j && s'.activePane == cut.activePane && s'.profile == Remove
  {
    var gone := s.columns[s.focusedCol];
    SettleGivesBack(cut, cut.focusedCol, gone, if gone.currentWidth > 0.0 then gone.currentWidth else gone.targetWidth as real);
  }

  lemma SettledIsLaidOut(rest: seq<Column>, j: nat, drawn: real, width: int)
    requires j < |rest| && drawn > 0.0
    requires forall k :: 0 <= k < |rest| ==> 0.0 <= rest[k].currentWidth
    ensures var laidOut := LayOutColumns(rest[j := rest[j].(currentWidth := drawn)], WindowWidth(width));
            && OthersLaidOut(laidOut, rest, width, j)
            && laidOut[j] == rest[j].(targetWidth := DueWidth(rest[j], width), currentWidth := drawn)
  {
  }

  /** A split gives the column one more pane and its focus; its widths and zoom
      stay, and the active pane changes only when the focus follows. */
  lemma SplitFocusesInColumn(s: Strip, p: Pane, width: int)
    requires Inv(s)
    ensures var (s', i) := (Apply(s, SplitPane(p, width)), s.focusedCol);
            var c := s.columns[i];
            && OthersLaidOut(s'.columns, s.columns, width, i) && s'.focusedCol == i && s'.activePane == s.activePane
            && LaidOutFrom(s'.columns[i],
                           c.(panes := c.panes[..c.focusedPane + 1] + [p] + c.panes[c.focusedPane + 1..],
                              focusedPane := c.focusedPane + 1), width)
  {
  }

  /** Dropping a pane keeps the focus at its place in the column, or at the last;
      and the pane there becomes the active one. */
  lemma DropFocusesInColumn(s: Strip, p: Pane, i: nat, k: nat, width: int)
    requires Inv(s) && i < |s.columns| && k < |s.columns[i].panes| && s.columns[i].panes[k] == p
    requires |s.columns[i].panes| > 1
    ensures var (s', c') := (Apply(s, DropPane(p, width)), WithoutPane(s.columns[i], k));
            && OthersLaidOut(s'.columns, s.columns, width, i) && s'.focusedCol == s.focusedCol
            && LaidOutFrom(s'.columns[i], c', width)
            && s'.activePane == Some(c'.panes[c'.focusedPane])
  {
    var c' := WithoutPane(s.columns[i], k);
    PaneIsOnce(s, p, i, k);
    DropIs(s, p, i, k, width);
    LaidOutWith(s, i, c', Some(c'.panes[c'.focusedPane]), width);
  }

  function WithoutPane(c: Column, k: nat): (r: Column)
    requires k < |c.panes| && |c.panes| > 1 && 0 <= c.focusedPane < |c.panes|
    ensures 0 <= r.focusedPane < |r.panes|
  {
    c.(panes := c.panes[..k] + c.panes[k + 1..],
       focusedPane := if c.focusedPane < |c.panes| - 1 then c.focusedPane else |c.panes| - 2)
  }

  lemma LaidOutWith(s: Strip, i: nat, c: Column, active: Option<Pane>, width: int)
    requires Inv(s) && i < |s.columns| && 0.0 <= c.currentWidth
    ensures var s' := ApplyLayout(s.(columns := s.columns[i := c], activePane := active), width);
            && OthersLaidOut(s'.columns, s.columns, width, i) && LaidOutFrom(s'.columns[i], c, width)
            && s'.focusedCol == s.focusedCol && s'.activePane == active
  {
  }

  lemma DropIs(s: Strip, p: Pane, i: nat, k: nat, width: int)
    requires FindColumn(s.columns, p) == i && PaneIndex(s.columns[i].panes, p) == k
    requires |s.columns[i].panes| > 1 && 0 <= s.columns[i].focusedPane < |s.columns[i].panes|
    ensures var c' := WithoutPane(s.columns[i], k);
            RemovePane(s, p, width) ==
            Some(ApplyLayout(s.(columns := s.columns[i := c'], activePane := Some(c'.panes[c'.focusedPane])), width))
  {
  }

  /** A pane is in one column, and there at one place. */
  lemma PaneIsOnce(s: Strip, p: Pane, i: nat, k: nat)
    requires Shape(s) && i < |s.columns| && k < |s.columns[i].panes| && s.columns[i].panes[k] == p
    ensures FindColumn(s.columns, p) == i && PaneIndex(s.columns[i].panes, p) == k
  {
    var rows := Rows(s.columns);
    var j := FindColumn(s.columns, p);
    PanesAt(s, i);
    DistinctMiddle(Flatten(rows[..i]), rows[i], Flatten(rows[i + 1..]));
    if j < i {
      assert rows[..i][j] == rows[j];
      InFlatten(rows[..i], p);
    }
  }
}
