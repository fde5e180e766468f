/**
  The strip layout (src/gtk/workspace_strip.c) as operations on values: columns
  of panes, the focused column, and the camera that pans over them.  Widths in
  motion and the camera are reals; the program's rounding is not modelled.
 */
module StripModel {
  import opened Options
  import opened Sequences

  type Pane = nat

  const DEFAULT_COL_WIDTH: int := 600
  const INSERT_START_WIDTH: int := 180
  const REMOVE_SETTLE_MAX_DELTA: real := 120.0
  const ANIM_EPSILON: real := 0.5

  datatype Profile = Default | Insert | Remove | Maximize

  datatype Column = Column(
    panes: seq<Pane>,
    focusedPane: int,
    targetWidth: int,
    currentWidth: real,
    maximized: bool,
    halfMaximized: bool)

  datatype Strip = Strip(
    columns: seq<Column>,
    focusedCol: int,
    cameraX: real,
    cameraTarget: real,
    profile: Profile,
    ticking: bool,
    activePane: Option<Pane>)

  function Clamp(x: int, low: int, high: int): int {
    if x > high then high else if x < low then low else x
  }

  function WidthOr600(w: int): (r: int)
    ensures r > 0
  {
    if w <= 0 then DEFAULT_COL_WIDTH else w
  }

  /** The width of the scroll container, or the default before it has one. */
  function Viewport(width: int): int {
    WidthOr600(width)
  }

  function FocusedNotebook(col: Column): Option<Pane> {
    if |col.panes| > 0 then Some(col.panes[Clamp(col.focusedPane, 0, |col.panes| - 1)]) else None
  }

  /** The index of a pane in a column, or -1. */
  function PaneIndex(panes: seq<Pane>, p: Pane): (i: int)
    ensures -1 <= i < |panes|
    ensures i >= 0 ==> panes[i] == p && p !in panes[..i]
    ensures i < 0 ==> p !in panes
  {
    if panes == [] then -1
    else if panes[0] == p then 0
    else
      var rest := PaneIndex(panes[1..], p);
      if rest < 0 then -1 else
        assert forall k :: 0 < k < rest + 1 ==> panes[k] == panes[1..][k - 1];
        rest + 1
  }

  /** The index of the first column that holds a pane, or -1. */
  function FindColumn(columns: seq<Column>, p: Pane): (i: int)
    ensures -1 <= i < |columns|
    ensures i >= 0 ==> p in columns[i].panes && forall k :: 0 <= k < i ==> p !in columns[k].panes
    ensures i < 0 ==> forall k :: 0 <= k < |columns| ==> p !in columns[k].panes
  {
    if columns == [] then -1
    else if p in columns[0].panes then 0
    else
      var rest := FindColumn(columns[1..], p);
      assert forall k :: 0 <= k < |columns| - 1 ==> columns[k + 1] == columns[1..][k];
      assert forall k :: 1 <= k < |columns| ==> columns[k] == columns[1..][k - 1];
      if rest < 0 then -1 else rest + 1
  }

  function ResolveFocusedCol(s: Strip): Option<nat> {
    if 0 <= s.focusedCol < |s.columns| then Some(s.focusedCol)
    else if s.activePane.Some? && FindColumn(s.columns, s.activePane.value) >= 0 then
      Some(FindColumn(s.columns, s.activePane.value))
    else if |s.columns| == 0 then None
    else Some(0)
  }

  // ---- camera ----

  function TotalWidth(columns: seq<Column>): int {
    if columns == [] then 0 else columns[0].targetWidth + TotalWidth(columns[1..])
  }

  function ClampCamera(s: Strip, viewport: int): Strip {
    if |s.columns| == 0 then s
    else
      var free := TotalWidth(s.columns) as real - viewport as real;
      var maxScroll := if free < 0.0 then 0.0 else free;
      var x := if s.cameraTarget < 0.0 then 0.0 else s.cameraTarget;
      s.(cameraTarget := if x > maxScroll then maxScroll else x)
  }

  /** The camera aimed at the middle of the focused column. */
  function AimAt(s: Strip, viewport: int): Strip
    requires 0 <= s.focusedCol < |s.columns|
  {
    var left := TotalWidth(s.columns[..s.focusedCol]) as real;
    var center := left + s.columns[s.focusedCol].targetWidth as real / 2.0;
    s.(cameraTarget := center - viewport as real / 2.0)
  }

  function PanToFocusedColumn(s: Strip, width: int): Strip {
    if 0 <= s.focusedCol < |s.columns|
    then ClampCamera(AimAt(s, Viewport(width)), Viewport(width)).(ticking := true)
    else s
  }

  function PanBy(s: Strip, dx: real, width: int): Strip {
    if dx == 0.0 then s
    else
      var s' := ClampCamera(s.(cameraTarget := s.cameraTarget + dx), Viewport(width));
      s'.(cameraX := s'.cameraTarget)
  }

  // ---- focus and layout ----

  function FocusColumn(s: Strip, i: int, width: int): Strip {
    if !(0 <= i < |s.columns|) then s
    else
      var focused := FocusedNotebook(s.columns[i]);
      PanToFocusedColumn(s.(focusedCol := i,
                            activePane := if focused.Some? then focused else s.activePane), width)
  }

  /** A pane's notebook received the keyboard focus. */
  function FocusEnter(s: Strip, p: Pane, width: int): Strip {
    var i := FindColumn(s.columns, p);
    if i < 0 then s
    else
      var col := s.columns[i].(focusedPane := PaneIndex(s.columns[i].panes, p));
      FocusColumn(s.(columns := s.columns[i := col]), i, width)
  }

  function LayOutColumn(col: Column, viewport: int): Column
    requires viewport > 0
  {
    var target := if col.maximized then viewport
                  else if col.halfMaximized then viewport / 2
                  else WidthOr600(col.targetWidth);
    col.(targetWidth := target,
         currentWidth := if col.currentWidth <= 0.0 then target as real else col.currentWidth)
  }

  function LayOutColumns(columns: seq<Column>, viewport: int): (r: seq<Column>)
    requires viewport > 0
    ensures |r| == |columns|
    ensures forall i :: 0 <= i < |columns| ==> r[i] == LayOutColumn(columns[i], viewport)
  {
    seq(|columns|, i requires 0 <= i < |columns| => LayOutColumn(columns[i], viewport))
  }

  function ApplyLayout(s: Strip, width: int): Strip {
    PanToFocusedColumn(s.(columns := LayOutColumns(s.columns, Viewport(width))), width)
  }

  // ---- columns come and go ----

  function NewColumn(p: Pane, startWidth: int): Column {
    Column([p], 0, DEFAULT_COL_WIDTH, startWidth as real, false, false)
  }

  function CreateRoot(first: Pane, width: int, active: Option<Pane>): Strip {
    ApplyLayout(Strip([NewColumn(first, DEFAULT_COL_WIDTH)], 0, 0.0, 0.0, Default, false, active), width)
  }

  function AddColumn(s: Strip, p: Pane): Strip {
    s.(columns := s.columns + [NewColumn(p, DEFAULT_COL_WIDTH)])
  }

  /** The strip with a new column of one pane at `at`. */
  function WithColumn(s: Strip, at: nat, p: Pane): Strip
    requires at <= |s.columns|
  {
    s.(columns := s.columns[..at] + [NewColumn(p, INSERT_START_WIDTH)] + s.columns[at..], profile := Insert)
  }

  function InsertColumnAfterActive(s: Strip, p: Pane, width: int): Strip {
    var active := ResolveFocusedCol(s);
    var at := if active.Some? then Clamp(active.value + 1, 0, |s.columns|) else 0;
    ApplyLayout(FocusColumn(WithColumn(s, at, p), at, width), width)
  }

  /** The column that takes over from a removed one gives back a little width,
      so that the removal is seen as a movement. */
  function SettleAfterRemove(s: Strip, i: int, removedWidth: real): Strip {
    if !(0 <= i < |s.columns|) then s
    else
      var w := if removedWidth <= 0.0 then DEFAULT_COL_WIDTH as real else removedWidth;
      var delta := if w * 0.2 < REMOVE_SETTLE_MAX_DELTA then w * 0.2 else REMOVE_SETTLE_MAX_DELTA;
      var least := (DEFAULT_COL_WIDTH / 2) as real;
      var shrunk := s.columns[i].currentWidth - delta;
      s.(columns := s.columns[i := s.columns[i].(currentWidth := if shrunk > least then shrunk else least)])
  }

  /** Column `i` is gone and its neighbour has the focus. */
  function CutColumn(s: Strip, i: nat): Strip
    requires i < |s.columns| && |s.columns| > 1
  {
    var columns := s.columns[..i] + s.columns[i + 1..];
    var focus := if i >= |columns| then |columns| - 1 else i;
    var focused := FocusedNotebook(columns[focus]);
    s.(columns := columns, focusedCol := focus, activePane := if focused.Some? then focused else s.activePane)
  }

  function RemoveActiveColumn(s: Strip, width: int): Option<Strip> {
    var target := ResolveFocusedCol(s);
    if |s.columns| <= 1 || target.None? || target.value >= |s.columns| then None
    else
      var gone := s.columns[target.value];
      var removedWidth := if gone.currentWidth > 0.0 then gone.currentWidth else gone.targetWidth as real;
      var s1 := CutColumn(s, target.value);
      Some(ApplyLayout(SettleAfterRemove(s1, s1.focusedCol, removedWidth).(profile := Remove), width))
  }

  // ---- panes inside a column ----

  function SplitColumn(col: Column, p: Pane): Column {
    var at := Clamp(col.focusedPane + 1, 0, |col.panes|);
    col.(panes := col.panes[..at] + [p] + col.panes[at..], focusedPane := at)
  }

  function SplitVertical(s: Strip, p: Pane, width: int): Option<Strip> {
    var target := ResolveFocusedCol(s);
    if target.None? || target.value >= |s.columns| then None
    else Some(ApplyLayout(s.(columns := s.columns[target.value := SplitColumn(s.columns[target.value], p)]), width))
  }

  /** Moving the focus by one pane; None when there is nowhere to go. */
  function FocusPane(s: Strip, delta: int): Option<Strip> {
    if !(0 <= s.focusedCol < |s.columns|) then None
    else
      var col := s.columns[s.focusedCol];
      var target := col.focusedPane + delta;
      if |col.panes| <= 1 || target < 0 || target >= |col.panes| then None
      else
        Some(s.(columns := s.columns[s.focusedCol := col.(focusedPane := target)],
                activePane := Some(col.panes[target])))
  }

  function CutPane(col: Column, k: nat): Column
    requires k < |col.panes|
  {
    var panes := col.panes[..k] + col.panes[k + 1..];
    col.(panes := panes, focusedPane := Clamp(col.focusedPane, 0, |panes| - 1))
  }

  function RemovePane(s: Strip, p: Pane, width: int): Option<Strip> {
    var i := FindColumn(s.columns, p);
    if i < 0 || |s.columns[i].panes| <= 1 then None
    else
      var col := CutPane(s.columns[i], PaneIndex(s.columns[i].panes, p));
      Some(ApplyLayout(s.(columns := s.columns[i := col], activePane := FocusedNotebook(col)), width))
  }

  // ---- zoom ----

  function ToggleMaximize(s: Strip, width: int): Strip {
    if !(0 <= s.focusedCol < |s.columns|) then s
    else
      var col := s.columns[s.focusedCol];
      var col' := col.(maximized := !col.maximized, halfMaximized := false,
                       targetWidth := if !col.maximized then Viewport(width) else DEFAULT_COL_WIDTH);
      PanToFocusedColumn(s.(columns := s.columns[s.focusedCol := col'], profile := Maximize), width)
  }

  function ToggleHalfMaximize(s: Strip, width: int): Strip {
    if !(0 <= s.focusedCol < |s.columns|) then s
    else
      var col := s.columns[s.focusedCol];
      var col' := col.(halfMaximized := !col.halfMaximized, maximized := false,
                       targetWidth := if !col.halfMaximized then Viewport(width) / 2 else DEFAULT_COL_WIDTH);
      PanToFocusedColumn(s.(columns := s.columns[s.focusedCol := col'], profile := Maximize), width)
  }

  // ---- the animation tick ----

  function Advance(current: real, delta: real, factor: real): real {
    current + delta * factor
  }

  function SmoothToward(current: real, target: real, rate: real, dt: real): real {
    var delta := target - current;
    var distance := if delta < 0.0 then -delta else delta;
    var step := rate * dt;
    var factor := if step > 1.0 then 1.0 else if step < 0.0 then 0.0 else step;
    if distance < ANIM_EPSILON then target else Advance(current, delta, factor)
  }

  function CameraLambda(p: Profile): real {
    match p case Default => 10.5 case Insert => 8.5 case Remove => 12.0 case Maximize => 7.0
  }

  function WidthLambda(p: Profile): real {
    match p case Default => 11.5 case Insert => 9.5 case Remove => 12.5 case Maximize => 6.5
  }

  function TickColumns(columns: seq<Column>, rate: real, dt: real): (r: seq<Column>)
    ensures |r| == |columns|
  {
    seq(|columns|, i requires 0 <= i < |columns| =>
      columns[i].(currentWidth := SmoothToward(columns[i].currentWidth, columns[i].targetWidth as real, rate, dt)))
  }

  /** One frame.  It reports whether anything is still moving; if nothing is,
      the tick callback removes itself. */
  function Tick(s: Strip, dt: real): (r: (Strip, bool)) {
    var s' := s.(cameraX := SmoothToward(s.cameraX, s.cameraTarget, CameraLambda(s.profile), dt),
                 columns := TickColumns(s.columns, WidthLambda(s.profile), dt));
    if s'.cameraX != s.cameraX || exists i :: 0 <= i < |s.columns| && s'.columns[i].currentWidth != s.columns[i].currentWidth
    then (s', true)
    else (s'.(ticking := false, profile := Default), false)
  }
}
