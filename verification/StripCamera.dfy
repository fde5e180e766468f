/** Where the camera ends up: in range, and on the focused column. */
module StripCamera {
  import opened StripModel
  import opened StripInvariants

  /** The left edge of a column: the sum of the target widths before it. */
  function LeftEdge(s: Strip, i: nat): int
    requires i <= |s.columns|
  {
    TotalWidth(s.columns[..i])
  }

  ghost predicate WidthsOk(columns: seq<Column>) {
    forall i :: 0 <= i < |columns| ==> 0 <= columns[i].targetWidth
  }

  lemma {:induction false} TotalConcat(a: seq<Column>, b: seq<Column>)
    ensures TotalWidth(a + b) == TotalWidth(a) + TotalWidth(b)
  {
    if a == [] {
      assert a + b == b;
    } else {
      assert (a + b)[1..] == a[1..] + b;
      TotalConcat(a[1..], b);
    }
  }

  lemma {:induction false} TotalNonNegative(columns: seq<Column>)
    requires WidthsOk(columns)
    ensures 0 <= TotalWidth(columns)
  {
    if columns != [] {
      TotalNonNegative(columns[1..]);
    }
  }

  /** A column's right edge is the next left edge, and lies within the strip. */
  lemma Edges(s: Strip, i: nat)
    requires i < |s.columns| && WidthsOk(s.columns)
    ensures 0 <= LeftEdge(s, i)
    ensures LeftEdge(s, i + 1) == LeftEdge(s, i) + s.columns[i].targetWidth <= TotalWidth(s.columns)
  {
    TotalNonNegative(s.columns[..i]);
    assert s.columns[..i + 1] == s.columns[..i] + [s.columns[i]];
    TotalConcat(s.columns[..i], [s.columns[i]]);
    assert TotalWidth([s.columns[i]]) == s.columns[i].targetWidth + TotalWidth([]);
    assert s.columns == s.columns[..i + 1] + s.columns[i + 1..];
    TotalConcat(s.columns[..i + 1], s.columns[i + 1..]);
    TotalNonNegative(s.columns[i + 1..]);
  }

  ghost predicate CameraInRange(s: Strip, viewport: int) {
    && 0.0 <= s.cameraTarget
    && (s.cameraTarget == 0.0 || s.cameraTarget <= (TotalWidth(s.columns) - viewport) as real)
  }

  /** Column `i` is in full view of a camera at its target. */
  ghost predicate FullyVisible(s: Strip, i: nat, viewport: int)
    requires i < |s.columns|
  {
    && s.cameraTarget <= LeftEdge(s, i) as real
    && LeftEdge(s, i + 1) as real <= s.cameraTarget + viewport as real
  }

  /** Column `i` fills the whole view. */
  ghost predicate FillsView(s: Strip, i: nat, viewport: int)
    requires i < |s.columns|
  {
    && LeftEdge(s, i) as real <= s.cameraTarget
    && s.cameraTarget + viewport as real <= LeftEdge(s, i + 1) as real
  }

  /** Panning shows the focused column: all of it when it fits, nothing but it
      when it does not; and the camera never shows space beyond the strip
      unless the whole strip fits. */
  lemma PanShowsFocusedColumn(s: Strip, width: int)
    requires 0 <= s.focusedCol < |s.columns| && WidthsOk(s.columns)
    ensures var s' := PanToFocusedColumn(s, width);
            var v := Viewport(width);
            && s'.columns == s.columns && s'.focusedCol == s.focusedCol
            && CameraInRange(s', v)
            && (s.columns[s.focusedCol].targetWidth <= v ==> FullyVisible(s', s.focusedCol, v))
            && (s.columns[s.focusedCol].targetWidth >= v ==> FillsView(s', s.focusedCol, v))
            && (TotalWidth(s.columns) <= v ==> s'.cameraTarget == 0.0)
  {
    Edges(s, s.focusedCol);
  }

  /** `x` brought into the range of the camera. */
  ghost predicate NearestInRange(target: real, x: real, s: Strip, viewport: int) {
    var last := if TotalWidth(s.columns) > viewport then (TotalWidth(s.columns) - viewport) as real else 0.0;
    && 0.0 <= target <= last
    && (0.0 <= x <= last ==> target == x)
    && (x < 0.0 ==> target == 0.0)
    && (x > last ==> target == last)
  }

  /** Panning puts the middle of the focused column in the middle of the view, or
      as near to it as the range permits. */
  lemma PanCentres(s: Strip, width: int)
    requires 0 <= s.focusedCol < |s.columns| && WidthsOk(s.columns)
    ensures var (v, i) := (Viewport(width), s.focusedCol);
            var middle := (LeftEdge(s, i) + LeftEdge(s, i + 1)) as real / 2.0;
            NearestInRange(PanToFocusedColumn(s, width).cameraTarget, middle - v as real / 2.0, s, v)
  {
    Edges(s, s.focusedCol);
  }

  /** Operations that end by panning; the others leave the target alone. */
  predicate Pans(op: Op) {
    op.InsertCol? || op.RemoveCol? || op.SplitPane? || op.DropPane? || op.FocusCol? || op.EnterPane?
    || op.Zoom? || op.HalfZoom? || op.Relayout?
  }

  function WidthOf(op: Op): int
    requires Pans(op)
  {
    op.width
  }

  /** Whether an operation is carried out rather than refused. */
  predicate TakesEffect(s: Strip, op: Op) {
    match op
    case RemoveCol(width) => RemoveActiveColumn(s, width).Some?
    case SplitPane(p, width) => SplitVertical(s, p, width).Some?
    case DropPane(p, width) => RemovePane(s, p, width).Some?
    case FocusCol(i, _) => 0 <= i < |s.columns|
    case EnterPane(p, _) => FindColumn(s.columns, p) >= 0
    case _ => true
  }

  /** After any operation of a run that pans, the focused column is in view in
      this sense; and scrolling never leaves the range. */
  lemma EveryPanShowsFocus(s: Strip, op: Op)
    requires Inv(s) && Enabled(s, op) && Pans(op)
    requires TakesEffect(s, op)
    ensures var s' := Apply(s, op);
            var v := Viewport(WidthOf(op));
            && 0 <= s'.focusedCol < |s'.columns|
            && CameraInRange(s', v)
            && (s'.columns[s'.focusedCol].targetWidth <= v ==> FullyVisible(s', s'.focusedCol, v))
            && (s'.columns[s'.focusedCol].targetWidth >= v ==> FillsView(s', s'.focusedCol, v))
  {
    ApplyKeepsInv(s, op);
    var before := BeforePan(s, op);
    PanShowsFocusedColumn(before, WidthOf(op));
  }

  /** The state each panning operation hands to its final pan. */
  lemma BeforePan(s: Strip, op: Op) returns (b: Strip)
    requires Inv(s) && Enabled(s, op) && Pans(op) && TakesEffect(s, op) && Inv(Apply(s, op))
    ensures Apply(s, op) == PanToFocusedColumn(b, WidthOf(op))
    ensures 0 <= b.focusedCol < |b.columns| && b.columns == Apply(s, op).columns && WidthsOk(b.columns)
  {
    b := PanSource(s, op);
    PanKeepsColumns(b, WidthOf(op));
    assert forall i :: 0 <= i < |b.columns| ==> ColumnInv(Apply(s, op).columns[i]);
  }

  function LaidOut(s: Strip, width: int): Strip {
    s.(columns := LayOutColumns(s.columns, Viewport(width)))
  }

  lemma PanSource(s: Strip, op: Op) returns (b: Strip)
    requires Inv(s) && Enabled(s, op) && Pans(op) && TakesEffect(s, op)
    ensures Apply(s, op) == PanToFocusedColumn(b, WidthOf(op))
  {
    if op.InsertCol? {
      b := LaidOut(FocusColumn(WithColumn(s, s.focusedCol + 1, op.p), s.focusedCol + 1, op.width), op.width);
    } else if op.RemoveCol? {
      b := RemoveSource(s, op);
    } else if op.SplitPane? {
      var col := SplitColumn(s.columns[s.focusedCol], op.p);
      b := LaidOut(s.(columns := s.columns[s.focusedCol := col]), op.width);
    } else if op.DropPane? {
      var i := FindColumn(s.columns, op.p);
      var col := CutPane(s.columns[i], PaneIndex(s.columns[i].panes, op.p));
      b := LaidOut(s.(columns := s.columns[i := col], activePane := FocusedNotebook(col)), op.width);
    } else if op.Relayout? {
      b := LaidOut(s, op.width);
    } else {
      b := FocusSource(s, op);
    }
  }

  lemma RemoveSource(s: Strip, op: Op) returns (b: Strip)
    requires Inv(s) && op.RemoveCol? && TakesEffect(s, op)
    ensures Apply(s, op) == PanToFocusedColumn(b, WidthOf(op))
  {
    var gone := s.columns[s.focusedCol];
    var removedWidth := if gone.currentWidth > 0.0 then gone.currentWidth else gone.targetWidth as real;
    var s1 := CutColumn(s, s.focusedCol);
    b := LaidOut(SettleAfterRemove(s1, s1.focusedCol, removedWidth).(profile := StripModel.Profile.Remove), op.width);
  }

  lemma FocusSource(s: Strip, op: Op) returns (b: Strip)
    requires Inv(s) && (op.FocusCol? || op.EnterPane? || op.Zoom? || op.HalfZoom?) && TakesEffect(s, op)
    ensures Apply(s, op) == PanToFocusedColumn(b, WidthOf(op))
  {
    match op
    case FocusCol(i, width) =>
      b := s.(focusedCol := i, activePane := FocusedNotebook(s.columns[i]));
    case EnterPane(p, width) =>
      var i := FindColumn(s.columns, p);
      var col := s.columns[i].(focusedPane := PaneIndex(s.columns[i].panes, p));
      b := s.(columns := s.columns[i := col], focusedCol := i, activePane := FocusedNotebook(col));
    case Zoom(width) =>
      var col := s.columns[s.focusedCol];
      var col' := col.(maximized := !col.maximized, halfMaximized := false,
                       targetWidth := if !col.maximized then Viewport(width) else DEFAULT_COL_WIDTH);
      b := s.(columns := s.columns[s.focusedCol := col'], profile := StripModel.Profile.Maximize);
    case HalfZoom(width) =>
      var col := s.columns[s.focusedCol];
      var col' := col.(halfMaximized := !col.halfMaximized, maximized := false,
                       targetWidth := if !col.halfMaximized then Viewport(width) / 2 else DEFAULT_COL_WIDTH);
      b := s.(columns := s.columns[s.focusedCol := col'], profile := StripModel.Profile.Maximize);
  }

  /** Scrolling by hand stays in range and moves the picture at once. */
  lemma ScrollStaysInRange(s: Strip, dx: real, width: int)
    requires Inv(s) && dx != 0.0
    ensures CameraInRange(PanBy(s, dx, width), Viewport(width))
    ensures NearestInRange(PanBy(s, dx, width).cameraTarget, s.cameraTarget + dx, s, Viewport(width))
    ensures PanBy(s, dx, width) == s.(cameraTarget := PanBy(s, dx, width).cameraTarget,
                                      cameraX := PanBy(s, dx, width).cameraTarget)
  {
  }
}
