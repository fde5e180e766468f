/** What every operation on a strip keeps, and what each does to the panes. */
module StripInvariants {
  import opened Options
  import opened Sequences
  import opened StripModel

  function Rows(columns: seq<Column>): (rows: seq<seq<Pane>>)
    ensures |rows| == |columns|
  {
    seq(|columns|, i requires 0 <= i < |columns| => columns[i].panes)
  }

  /** All panes, column by column and top to bottom. */
  function Panes(s: Strip): seq<Pane> {
    Flatten(Rows(s.columns))
  }

  predicate ColumnInv(c: Column) {
    && 0 <= c.focusedPane < |c.panes|
    && !(c.maximized && c.halfMaximized)
    && 0 <= c.targetWidth
    && 0.0 <= c.currentWidth
  }

  predicate AtRest(s: Strip) {
    && s.cameraX == s.cameraTarget
    && forall i :: 0 <= i < |s.columns| ==> s.columns[i].currentWidth == s.columns[i].targetWidth as real
  }

  /** The structure of a strip. */
  ghost predicate Shape(s: Strip) {
    && 0 <= s.focusedCol < |s.columns|
    && (forall i :: 0 <= i < |s.columns| ==> ColumnInv(s.columns[i]))
    && Distinct(Panes(s))
  }

  /** ... and nothing waits for a frame that will not come. */
  ghost predicate Inv(s: Strip) {
    Shape(s) && (s.ticking || AtRest(s))
  }

  datatype Op =
    | AddCol(p: Pane)
    | InsertCol(p: Pane, width: int)
    | RemoveCol(width: int)
    | SplitPane(p: Pane, width: int)
    | DropPane(p: Pane, width: int)
    | FocusCol(i: int, width: int)
    | EnterPane(p: Pane, width: int)
    | MoveFocus(up: bool)
    | Zoom(width: int)
    | HalfZoom(width: int)
    | Scroll(dx: real, width: int)
    | Relayout(width: int)
    | Frame(dt: real)

  function OrElse(o: Option<Strip>, s: Strip): Strip {
    if o.Some? then o.value else s
  }

  function Apply(s: Strip, op: Op): Strip {
    match op
    case AddCol(p) => AddColumn(s, p)
    case InsertCol(p, width) => InsertColumnAfterActive(s, p, width)
    case RemoveCol(width) => OrElse(RemoveActiveColumn(s, width), s)
    case SplitPane(p, width) => OrElse(SplitVertical(s, p, width), s)
    case DropPane(p, width) => OrElse(RemovePane(s, p, width), s)
    case FocusCol(i, width) => FocusColumn(s, i, width)
    case EnterPane(p, width) => FocusEnter(s, p, width)
    case MoveFocus(up) => OrElse(FocusPane(s, if up then -1 else 1), s)
    case Zoom(width) => ToggleMaximize(s, width)
    case HalfZoom(width) => ToggleHalfMaximize(s, width)
    case Scroll(dx, width) => PanBy(s, dx, width)
    case Relayout(width) => ApplyLayout(s, width)
    case Frame(dt) => Tick(s, dt).0
  }

  const MIN_DT: real := 1.0 / 240.0
  const MAX_DT: real := 1.0 / 20.0

  /** Panes that come in are new ones, and frames have a clamped duration. */
  predicate Enabled(s: Strip, op: Op) {
    match op
    case AddCol(p) => p !in Panes(s)
    case InsertCol(p, _) => p !in Panes(s)
    case SplitPane(p, _) => p !in Panes(s)
    case Frame(dt) => MIN_DT <= dt <= MAX_DT
    case _ => true
  }

  /** What an operation is to do to the order of the panes, without a word about
      columns: a new column's pane comes after the last pane of the focused
      column, a split pane directly after the focused pane. */
  function ExpectedPanes(s: Strip, op: Op): seq<Pane>
    requires 0 <= s.focusedCol < |s.columns|
    requires ColumnInv(s.columns[s.focusedCol])
  {
    var col := s.columns[s.focusedCol];
    match op
    case AddCol(p) => Panes(s) + [p]
    case InsertCol(p, _) => InsertAfter(Panes(s), col.panes[|col.panes| - 1], p)
    case RemoveCol(_) => if |s.columns| == 1 then Panes(s) else Without(Panes(s), col.panes)
    case SplitPane(p, _) => InsertAfter(Panes(s), col.panes[col.focusedPane], p)
    case DropPane(p, _) => if [p] in Rows(s.columns) then Panes(s) else Without(Panes(s), [p])
    case _ => Panes(s)
  }

  // ---- rows ----

  lemma PanesAt(s: Strip, i: nat)
    requires i < |s.columns|
    ensures Panes(s) == Flatten(Rows(s.columns)[..i]) + s.columns[i].panes + Flatten(Rows(s.columns)[i + 1..])
  {
    FlattenAt(Rows(s.columns), i);
  }

  /** Replacing one column replaces its panes in place. */
  lemma PanesUpdate(s: Strip, i: nat, c: Column)
    requires i < |s.columns|
    ensures Flatten(Rows(s.columns[i := c]))
         == Flatten(Rows(s.columns)[..i]) + c.panes + Flatten(Rows(s.columns)[i + 1..])
  {
    assert Rows(s.columns[i := c]) == Rows(s.columns)[i := c.panes];
    FlattenUpdate(Rows(s.columns), i, c.panes);
  }

  lemma SamePanes(columns: seq<Column>, columns': seq<Column>)
    requires |columns'| == |columns|
    requires forall i :: 0 <= i < |columns| ==> columns'[i].panes == columns[i].panes
    ensures Rows(columns') == Rows(columns)
  {
  }

  // ---- operations that move no pane ----

  lemma PanKeepsColumns(s: Strip, width: int)
    ensures PanToFocusedColumn(s, width).columns == s.columns
    ensures PanToFocusedColumn(s, width).focusedCol == s.focusedCol
    ensures 0 <= s.focusedCol < |s.columns| ==> PanToFocusedColumn(s, width).ticking
  {
  }

  lemma LayOutKeepsShape(s: Strip, width: int)
    requires Shape(s)
    ensures Inv(ApplyLayout(s, width)) && Panes(ApplyLayout(s, width)) == Panes(s)
    ensures ApplyLayout(s, width).ticking && ApplyLayout(s, width).focusedCol == s.focusedCol
  {
    var s' := s.(columns := LayOutColumns(s.columns, Viewport(width)));
    SamePanes(s.columns, s'.columns);
    PanKeepsColumns(s', width);
  }

  lemma FocusKeepsShape(s: Strip, i: int, width: int)
    requires Shape(s)
    ensures Shape(FocusColumn(s, i, width)) && FocusColumn(s, i, width).columns == s.columns
    ensures 0 <= i < |s.columns| ==>
              FocusColumn(s, i, width).ticking && FocusColumn(s, i, width).focusedCol == i
    ensures !(0 <= i < |s.columns|) ==> FocusColumn(s, i, width) == s
  {
  }

  /** A changed column with the same panes keeps the shape. */
  lemma TouchKeepsShape(s: Strip, i: nat, c: Column)
    requires Shape(s) && i < |s.columns|
    requires ColumnInv(c) && c.panes == s.columns[i].panes
    ensures Shape(s.(columns := s.columns[i := c]))
    ensures Panes(s.(columns := s.columns[i := c])) == Panes(s)
  {
    SamePanes(s.columns, s.columns[i := c]);
  }

  lemma EnterKeepsInv(s: Strip, p: Pane, width: int)
    requires Inv(s)
    ensures Inv(FocusEnter(s, p, width)) && Panes(FocusEnter(s, p, width)) == Panes(s)
  {
    var i := FindColumn(s.columns, p);
    if i >= 0 {
      var c := s.columns[i].(focusedPane := PaneIndex(s.columns[i].panes, p));
      TouchKeepsShape(s, i, c);
      FocusKeepsShape(s.(columns := s.columns[i := c]), i, width);
    }
  }

  lemma ZoomKeepsInv(s: Strip, width: int)
    requires Inv(s)
    ensures Inv(ToggleMaximize(s, width)) && Panes(ToggleMaximize(s, width)) == Panes(s)
    ensures Inv(ToggleHalfMaximize(s, width)) && Panes(ToggleHalfMaximize(s, width)) == Panes(s)
  {
    var i := s.focusedCol;
    var full := ToggleMaximize(s, width).columns[i];
    var half := ToggleHalfMaximize(s, width).columns[i];
    TouchKeepsShape(s, i, full);
    TouchKeepsShape(s, i, half);
  }

  lemma MoveFocusKeepsInv(s: Strip, delta: int)
    requires Inv(s)
    ensures FocusPane(s, delta).Some? ==>
              && Inv(FocusPane(s, delta).value) && Panes(FocusPane(s, delta).value) == Panes(s)
  {
    var i := s.focusedCol;
    var target := s.columns[i].focusedPane + delta;
    if FocusPane(s, delta).Some? {
      TouchKeepsShape(s, i, s.columns[i].(focusedPane := target));
    }
  }

  lemma PartOf(delta: real, f: real)
    requires 0.0 < f <= 1.0
    ensures delta >= 0.0 ==> 0.0 <= delta * f <= delta
    ensures delta <= 0.0 ==> delta <= delta * f <= 0.0
    ensures delta != 0.0 ==> delta * f != 0.0
  {
  }

  /** A frame moves a value towards its target, and stops only there. */
  lemma SmoothStep(current: real, target: real, rate: real, dt: real)
    requires 0.0 < rate * dt <= 1.0
    ensures var next := SmoothToward(current, target, rate, dt);
            && (current <= target ==> current <= next <= target)
            && (current >= target ==> current >= next >= target)
            && (next == current <==> current == target)
  {
    SmoothIs(current, target, rate, dt);
    AdvanceWithin(current, target - current, rate * dt);
  }

  lemma SmoothIs(current: real, target: real, rate: real, dt: real)
    requires 0.0 < rate * dt <= 1.0
    ensures SmoothToward(current, target, rate, dt) ==
            if -ANIM_EPSILON < target - current < ANIM_EPSILON then target
            else Advance(current, target - current, rate * dt)
  {
  }

  lemma AdvanceWithin(current: real, delta: real, f: real)
    requires 0.0 < f <= 1.0
    ensures delta >= 0.0 ==> current <= Advance(current, delta, f) <= current + delta
    ensures delta <= 0.0 ==> current >= Advance(current, delta, f) >= current + delta
    ensures delta != 0.0 ==> Advance(current, delta, f) != current
  {
    PartOf(delta, f);
    var part := delta * f;
    assert Advance(current, delta, f) == current + part;
  }

  lemma RateBounds(p: Profile, dt: real)
    requires MIN_DT <= dt <= MAX_DT
    ensures 6.5 / 240.0 <= CameraLambda(p) * dt <= 12.5 / 20.0
    ensures 6.5 / 240.0 <= WidthLambda(p) * dt <= 12.5 / 20.0
  {
  }

  /** The tick callback removes itself exactly when everything has arrived. */
  lemma TickStopsExactlyAtRest(s: Strip, dt: real)
    requires MIN_DT <= dt <= MAX_DT
    ensures Tick(s, dt).1 <==> !AtRest(s)
    ensures !Tick(s, dt).1 ==> Tick(s, dt).0 == s.(ticking := false, profile := Default)
    ensures Tick(s, dt).1 ==> Tick(s, dt).0.ticking == s.ticking && Tick(s, dt).0.profile == s.profile
  {
    RateBounds(s.profile, dt);
    SmoothStep(s.cameraX, s.cameraTarget, CameraLambda(s.profile), dt);
    forall i | 0 <= i < |s.columns|
      ensures TickColumns(s.columns, WidthLambda(s.profile), dt)[i].currentWidth == s.columns[i].currentWidth
        <==> s.columns[i].currentWidth == s.columns[i].targetWidth as real
    {
      SmoothStep(s.columns[i].currentWidth, s.columns[i].targetWidth as real, WidthLambda(s.profile), dt);
    }
    if !Tick(s, dt).1 {
      assert TickColumns(s.columns, WidthLambda(s.profile), dt) == s.columns;
    }
  }

  lemma FrameKeepsInv(s: Strip, dt: real)
    requires Inv(s) && MIN_DT <= dt <= MAX_DT
    ensures Inv(Tick(s, dt).0) && Panes(Tick(s, dt).0) == Panes(s)
  {
    TickStopsExactlyAtRest(s, dt);
    RateBounds(s.profile, dt);
    var columns := TickColumns(s.columns, WidthLambda(s.profile), dt);
    forall i | 0 <= i < |columns|
      ensures ColumnInv(columns[i])
    {
      SmoothStep(s.columns[i].currentWidth, s.columns[i].targetWidth as real, WidthLambda(s.profile), dt);
    }
    SamePanes(s.columns, columns);
  }

  // ---- operations that add or remove panes ----

  lemma AddKeepsInv(s: Strip, p: Pane)
    requires Inv(s) && p !in Panes(s)
    ensures Inv(AddColumn(s, p)) && Panes(AddColumn(s, p)) == Panes(s) + [p]
  {
    var c := NewColumn(p, DEFAULT_COL_WIDTH);
    assert Rows(s.columns + [c]) == Rows(s.columns) + [[p]];
    FlattenConcat(Rows(s.columns), [[p]]);
    assert Flatten([[p]]) == [p];
    assert Panes(s) + [p] + [] == Panes(s) + [p];
    DistinctParts(Panes(s), [p]);
  }

  lemma RowsWithColumn(s: Strip, at: nat, p: Pane)
    requires at <= |s.columns|
    ensures Rows(WithColumn(s, at, p).columns) == Rows(s.columns)[..at] + [[p]] + Rows(s.columns)[at..]
    ensures Panes(WithColumn(s, at, p)) == Flatten(Rows(s.columns)[..at]) + [p] + Flatten(Rows(s.columns)[at..])
    ensures Panes(s) == Flatten(Rows(s.columns)[..at]) + Flatten(Rows(s.columns)[at..])
  {
    var rows := Rows(s.columns);
    assert Rows(WithColumn(s, at, p).columns) == rows[..at] + [[p]] + rows[at..];
    FlattenConcat(rows[..at] + [[p]], rows[at..]);
    FlattenConcat(rows[..at], [[p]]);
    assert Flatten([[p]]) == [p] + Flatten<Pane>([]);
    assert rows == rows[..at] + rows[at..];
    FlattenConcat(rows[..at], rows[at..]);
  }

  lemma WithColumnKeepsShape(s: Strip, at: nat, p: Pane)
    requires Shape(s) && at <= |s.columns| && p !in Panes(s)
    ensures Shape(WithColumn(s, at, p))
  {
    RowsWithColumn(s, at, p);
    DistinctInsert(Flatten(Rows(s.columns)[..at]), p, Flatten(Rows(s.columns)[at..]));
    var s' := WithColumn(s, at, p);
    forall i | 0 <= i < |s'.columns|
      ensures ColumnInv(s'.columns[i])
    {
      assert s'.columns[i] == if i < at then s.columns[i]
                              else if i == at then NewColumn(p, INSERT_START_WIDTH)
                              else s.columns[i - 1];
    }
  }

  lemma InsertKeepsInv(s: Strip, p: Pane, width: int)
    requires Inv(s) && p !in Panes(s)
    ensures var s' := InsertColumnAfterActive(s, p, width);
            && Inv(s') && Panes(s') == ExpectedPanes(s, InsertCol(p, width))
            && s'.focusedCol == s.focusedCol + 1 && s'.columns[s'.focusedCol].panes == [p]
            && Rows(s'.columns) == Rows(s.columns)[..s'.focusedCol] + [[p]] + Rows(s.columns)[s'.focusedCol..]
  {
    var at := s.focusedCol + 1;
    var s1 := WithColumn(s, at, p);
    WithColumnKeepsShape(s, at, p);
    RowsWithColumn(s, at, p);
    LastOfRow(s, p);
    var s2 := FocusColumn(s1, at, width);
    FocusKeepsShape(s1, at, width);
    LayOutKeepsShape(s2, width);
    assert InsertColumnAfterActive(s, p, width) == ApplyLayout(s2, width);
    SamePanes(s2.columns, ApplyLayout(s2, width).columns);
  }

  /** The focused column ends where the columns after it begin. */
  lemma LastOfRow(s: Strip, p: Pane)
    requires Shape(s)
    ensures var rows := Rows(s.columns);
            var col := s.columns[s.focusedCol];
            InsertAfter(Panes(s), col.panes[|col.panes| - 1], p)
              == Flatten(rows[..s.focusedCol + 1]) + [p] + Flatten(rows[s.focusedCol + 1..])
  {
    var i := s.focusedCol;
    var rows := Rows(s.columns);
    PanesAt(s, i);
    FlattenConcat(rows[..i], [rows[i]]);
    assert rows[..i + 1] == rows[..i] + [rows[i]];
    assert Flatten([rows[i]]) == rows[i] + Flatten<Pane>([]);
    BehindLast(Flatten(rows[..i]), rows[i], Flatten(rows[i + 1..]), p);
  }

  lemma BehindLast(a: seq<Pane>, row: seq<Pane>, b: seq<Pane>, p: Pane)
    requires row != [] && Distinct(a + row + b)
    ensures InsertAfter(a + row + b, row[|row| - 1], p) == a + row + [p] + b
  {
    var front, last := a + row[..|row| - 1], row[|row| - 1];
    assert a + row + b == front + [last] + b;
    DistinctMiddle(front, [last], b);
    assert last in [last];
    InsertAfterAt(front, last, b, p);
    assert front + [last, p] + b == a + row + [p] + b;
  }

  /** Without column `i` the rest keeps its panes in order. */
  lemma CutColumnKeepsShape(s: Strip, i: nat)
    requires Shape(s) && i < |s.columns| && |s.columns| > 1
    ensures Shape(CutColumn(s, i)) && Panes(CutColumn(s, i)) == Without(Panes(s), s.columns[i].panes)
  {
    var rows := Rows(s.columns);
    var columns := CutColumn(s, i).columns;
    assert Rows(columns) == rows[..i] + rows[i + 1..];
    FlattenConcat(rows[..i], rows[i + 1..]);
    PanesAt(s, i);
    var a, b := Flatten(rows[..i]), Flatten(rows[i + 1..]);
    DistinctMiddle(a, rows[i], b);
    WithoutMiddle(a, rows[i], b);
    forall k | 0 <= k < |columns|
      ensures ColumnInv(columns[k])
    {
      assert columns[k] == if k < i then s.columns[k] else s.columns[k + 1];
    }
  }

  lemma SettleKeepsShape(s: Strip, i: nat, removedWidth: real)
    requires Shape(s) && i < |s.columns|
    ensures Shape(SettleAfterRemove(s, i, removedWidth)) && Panes(SettleAfterRemove(s, i, removedWidth)) == Panes(s)
    ensures |SettleAfterRemove(s, i, removedWidth).columns| == |s.columns|
  {
    TouchKeepsShape(s, i, SettleAfterRemove(s, i, removedWidth).columns[i]);
  }

  lemma RemoveKeepsInv(s: Strip, width: int)
    requires Inv(s)
    ensures var r := RemoveActiveColumn(s, width);
            && (r.Some? <==> |s.columns| > 1)
            && (r.Some? ==>
                  && Inv(r.value) && Panes(r.value) == ExpectedPanes(s, RemoveCol(width))
                  && r.value.focusedCol == (if s.focusedCol == |s.columns| - 1 then s.focusedCol - 1 else s.focusedCol)
                  && r.value.activePane == FocusedNotebook(r.value.columns[r.value.focusedCol]))
  {
    if |s.columns| > 1 {
      var s1 := CutColumn(s, s.focusedCol);
      CutColumnKeepsShape(s, s.focusedCol);
      var gone := s.columns[s.focusedCol];
      var removedWidth := if gone.currentWidth > 0.0 then gone.currentWidth else gone.targetWidth as real;
      SettleKeepsShape(s1, s1.focusedCol, removedWidth);
      var s2 := SettleAfterRemove(s1, s1.focusedCol, removedWidth).(profile := StripModel.Profile.Remove);
      assert Panes(s2) == Panes(s1);
      LayOutKeepsShape(s2, width);
    }
  }

  /** A pane put right behind the focused one, inside the focused column. */
  lemma SplitPanes(s: Strip, p: Pane)
    requires Shape(s) && p !in Panes(s)
    ensures var rows := Rows(s.columns[s.focusedCol := SplitColumn(s.columns[s.focusedCol], p)]);
            && Flatten(rows) == ExpectedPanes(s, SplitPane(p, 0))
            && Distinct(Flatten(rows))
  {
    var i := s.focusedCol;
    var col := s.columns[i];
    var rows := Rows(s.columns);
    PanesAt(s, i);
    PanesUpdate(s, i, SplitColumn(col, p));
    SpliceIntoRow(Flatten(rows[..i]), col.panes, col.focusedPane, Flatten(rows[i + 1..]), p);
  }

  lemma SpliceIntoRow(a: seq<Pane>, row: seq<Pane>, k: nat, b: seq<Pane>, p: Pane)
    requires k < |row| && Distinct(a + row + b) && p !in a + row + b
    ensures var spliced := a + (row[..k + 1] + [p] + row[k + 1..]) + b;
            spliced == InsertAfter(a + row + b, row[k], p) && Distinct(spliced)
  {
    var front, tail := a + row[..k], row[k + 1..] + b;
    assert a + row + b == front + [row[k]] + tail;
    assert a + (row[..k + 1] + [p] + row[k + 1..]) + b == front + [row[k], p] + tail;
    SpliceIn(front, row[k], tail, p);
  }

  lemma SpliceIn(front: seq<Pane>, anchor: Pane, tail: seq<Pane>, p: Pane)
    requires Distinct(front + [anchor] + tail) && p !in front + [anchor] + tail
    ensures InsertAfter(front + [anchor] + tail, anchor, p) == front + [anchor, p] + tail
    ensures Distinct(front + [anchor, p] + tail)
  {
    DistinctMiddle(front, [anchor], tail);
    assert anchor in [anchor];
    InsertAfterAt(front, anchor, tail, p);
    DistinctInsert(front + [anchor], p, tail);
    assert front + [anchor] + [p] + tail == front + [anchor, p] + tail;
  }

  lemma SplitKeepsInv(s: Strip, p: Pane, width: int)
    requires Inv(s) && p !in Panes(s)
    ensures var r := SplitVertical(s, p, width);
            && r.Some?
            && Inv(r.value) && Panes(r.value) == ExpectedPanes(s, SplitPane(p, width))
            && r.value.focusedCol == s.focusedCol && |r.value.columns| == |s.columns|
            && FocusedNotebook(r.value.columns[s.focusedCol]) == Some(p)
            && (forall k :: 0 <= k < |s.columns| && k != s.focusedCol ==> r.value.columns[k].panes == s.columns[k].panes)
  {
    var i := s.focusedCol;
    var s1 := s.(columns := s.columns[i := SplitColumn(s.columns[i], p)]);
    SplitPanes(s, p);
    assert Shape(s1);
    LayOutKeepsShape(s1, width);
  }

  lemma DropKeepsInv(s: Strip, p: Pane, width: int)
    requires Inv(s)
    ensures var r := RemovePane(s, p, width);
            && (r.Some? <==> p in Panes(s) && [p] !in Rows(s.columns))
            && (r.Some? ==>
                  && Inv(r.value) && Panes(r.value) == Without(Panes(s), [p])
                  && |r.value.columns| == |s.columns| && r.value.focusedCol == s.focusedCol)
            && Panes(OrElse(r, s)) == ExpectedPanes(s, DropPane(p, width))
  {
    var i := FindColumn(s.columns, p);
    var rows := Rows(s.columns);
    InFlatten(rows, p);
    if i < 0 {
      WithoutAllOrNone(Panes(s), [p]);
      assert forall k :: 0 <= k < |rows| ==> p !in rows[k];
      assert p in [p];
    } else {
      assert p in rows[i];
      DropFromColumn(s, p, i, width);
    }
  }

  lemma DropPanes(s: Strip, p: Pane, i: nat)
    requires Shape(s) && i < |s.columns| && p in s.columns[i].panes
    ensures var rows := Rows(s.columns[i := CutPane(s.columns[i], PaneIndex(s.columns[i].panes, p))]);
            && Flatten(rows) == Without(Panes(s), [p])
            && Distinct(Flatten(rows))
  {
    var row := s.columns[i].panes;
    var k := PaneIndex(row, p);
    var rows := Rows(s.columns);
    var a, b := Flatten(rows[..i]), Flatten(rows[i + 1..]);
    PanesAt(s, i);
    PanesUpdate(s, i, CutPane(s.columns[i], k));
    CutFromRow(a, row, k, b);
  }

  lemma CutFromRow(a: seq<Pane>, row: seq<Pane>, k: nat, b: seq<Pane>)
    requires k < |row| && Distinct(a + row + b)
    ensures var cut := a + (row[..k] + row[k + 1..]) + b;
            cut == Without(a + row + b, [row[k]]) && Distinct(cut)
  {
    var head, tail := a + row[..k], row[k + 1..] + b;
    assert a + row + b == head + [row[k]] + tail;
    assert a + (row[..k] + row[k + 1..]) + b == head + tail;
    DistinctMiddle(head, [row[k]], tail);
    WithoutMiddle(head, [row[k]], tail);
  }

  lemma DropFromColumn(s: Strip, p: Pane, i: nat, width: int)
    requires Inv(s) && i == FindColumn(s.columns, p)
    ensures [p] in Rows(s.columns) <==> |s.columns[i].panes| == 1
    ensures |s.columns[i].panes| > 1 ==>
              && RemovePane(s, p, width).Some?
              && Inv(RemovePane(s, p, width).value)
              && Panes(RemovePane(s, p, width).value) == Without(Panes(s), [p])
              && |RemovePane(s, p, width).value.columns| == |s.columns|
              && RemovePane(s, p, width).value.focusedCol == s.focusedCol
  {
    var col := s.columns[i];
    if |col.panes| == 1 {
      assert Rows(s.columns)[i] == [p];
    } else {
      OnlyInItsColumn(s, p, i);
      DropPanes(s, p, i);
      var col' := CutPane(col, PaneIndex(col.panes, p));
      var s1 := s.(columns := s.columns[i := col'], activePane := FocusedNotebook(col'));
      assert Shape(s1);
      LayOutKeepsShape(s1, width);
    }
  }

  /** A pane that shares its column is in no other column. */
  lemma OnlyInItsColumn(s: Strip, p: Pane, i: nat)
    requires Shape(s) && i < |s.columns| && p in s.columns[i].panes && |s.columns[i].panes| > 1
    ensures [p] !in Rows(s.columns)
  {
    var rows := Rows(s.columns);
    if [p] in rows {
      var k :| 0 <= k < |rows| && rows[k] == [p];
      PanesAt(s, i);
      DistinctMiddle(Flatten(rows[..i]), rows[i], Flatten(rows[i + 1..]));
      assert p in rows[k];
      if k < i {
        assert rows[..i][k] == rows[k];
        InFlatten(rows[..i], p);
      } else {
        assert rows[i + 1..][k - i - 1] == rows[k];
        InFlatten(rows[i + 1..], p);
      }
      assert false;
    }
  }

  // ---- every operation, every run ----

  /** Every operation keeps the invariant and does to the panes what it should. */
  lemma ApplyKeepsInv(s: Strip, op: Op)
    requires Inv(s) && Enabled(s, op)
    ensures Inv(Apply(s, op)) && Panes(Apply(s, op)) == ExpectedPanes(s, op)
  {
    match op
    case AddCol(p) => AddKeepsInv(s, p);
    case InsertCol(p, width) => InsertKeepsInv(s, p, width);
    case RemoveCol(width) => RemoveKeepsInv(s, width);
    case SplitPane(p, width) => SplitKeepsInv(s, p, width);
    case DropPane(p, width) => DropKeepsInv(s, p, width);
    case FocusCol(i, width) => FocusKeepsShape(s, i, width);
    case EnterPane(p, width) => EnterKeepsInv(s, p, width);
    case MoveFocus(up) => MoveFocusKeepsInv(s, if up then -1 else 1);
    case Zoom(width) => ZoomKeepsInv(s, width);
    case HalfZoom(width) => ZoomKeepsInv(s, width);
    case Scroll(dx, width) =>
    case Relayout(width) => LayOutKeepsShape(s, width);
    case Frame(dt) => FrameKeepsInv(s, dt);
  }

  lemma CreateEstablishesInv(p: Pane, width: int, active: Option<Pane>)
    ensures Inv(CreateRoot(p, width, active)) && Panes(CreateRoot(p, width, active)) == [p]
  {
    var s := Strip([NewColumn(p, DEFAULT_COL_WIDTH)], 0, 0.0, 0.0, Default, false, active);
    assert Rows(s.columns) == [[p]];
    assert Flatten([[p]]) == [p];
    LayOutKeepsShape(s, width);
  }

  function Run(s: Strip, ops: seq<Op>): Strip
    decreases |ops|
  {
    if ops == [] then s else Apply(Run(s, ops[..|ops| - 1]), ops[|ops| - 1])
  }

  ghost predicate RunEnabled(s: Strip, ops: seq<Op>)
    decreases |ops|
  {
    ops == [] || (RunEnabled(s, ops[..|ops| - 1]) && Enabled(Run(s, ops[..|ops| - 1]), ops[|ops| - 1]))
  }

  lemma {:induction false} RunFromKeepsInv(s: Strip, ops: seq<Op>)
    requires Inv(s) && RunEnabled(s, ops)
    ensures Inv(Run(s, ops))
    decreases |ops|
  {
    if ops != [] {
      RunFromKeepsInv(s, ops[..|ops| - 1]);
      ApplyKeepsInv(Run(s, ops[..|ops| - 1]), ops[|ops| - 1]);
    }
  }

  /** From the first pane on, every run keeps the invariant. */
  lemma RunKeepsInv(p: Pane, width: int, active: Option<Pane>, ops: seq<Op>)
    requires RunEnabled(CreateRoot(p, width, active), ops)
    ensures Inv(Run(CreateRoot(p, width, active), ops))
  {
    CreateEstablishesInv(p, width, active);
    RunFromKeepsInv(CreateRoot(p, width, active), ops);
  }
}
