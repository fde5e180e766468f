/**
  The strip as the program holds it: column objects that are updated in place,
  and a state object that points to them.  Every operation is proved to do to
  the values exactly what StripModel says.  `width` is what the toolkit reports
  for the scroll container.
 */
module WorkspaceStrip {
  import opened Options
  import opened StripModel

  class WorkspaceColumn {
    var panes: seq<Pane>
    var focusedPane: int
    var targetWidth: int
    var currentWidth: real
    var maximized: bool
    var halfMaximized: bool

    constructor (p: Pane, startWidth: int)
      ensures Val() == NewColumn(p, startWidth)
    {
      panes := [p];
      focusedPane := 0;
      targetWidth := DEFAULT_COL_WIDTH;
      currentWidth := startWidth as real;
      maximized := false;
      halfMaximized := false;
    }

    constructor Restored(panes: seq<Pane>, focusedPane: int, width: int, maximized: bool, halfMaximized: bool)
      ensures Val() == Column(panes, focusedPane, width, width as real, maximized, halfMaximized)
    {
      this.panes := panes;
      this.focusedPane := focusedPane;
      this.targetWidth := width;
      this.currentWidth := width as real;
      this.maximized := maximized;
      this.halfMaximized := halfMaximized;
    }

    ghost function Val(): Column
      reads this
    {
      Column(panes, focusedPane, targetWidth, currentWidth, maximized, halfMaximized)
    }

    method LayOut(viewport: int)
      requires viewport > 0
      modifies this`targetWidth, this`currentWidth
      ensures Val() == LayOutColumn(old(Val()), viewport)
    {
      if maximized {
        targetWidth := viewport;
      } else if halfMaximized {
        targetWidth := viewport / 2;
      } else if targetWidth <= 0 {
        targetWidth := DEFAULT_COL_WIDTH;
      }
      if currentWidth <= 0.0 {
        currentWidth := targetWidth as real;
      }
    }

    /** One frame of the column's animation; tells whether it moved. */
    method Tick(rate: real, dt: real) returns (moved: bool)
      modifies this`currentWidth
      ensures Val() == old(Val()).(currentWidth := SmoothToward(old(currentWidth), targetWidth as real, rate, dt))
      ensures moved <==> currentWidth != old(currentWidth)
    {
      var w := SmoothToward(currentWidth, targetWidth as real, rate, dt);
      if w != currentWidth {
        currentWidth := w;
        return true;
      }
      return false;
    }

    method RemovePaneAt(k: nat)
      requires k < |panes| && |panes| > 1
      modifies this`panes, this`focusedPane
      ensures Val() == CutPane(old(Val()), k)
    {
      panes := panes[..k] + panes[k + 1..];
      if focusedPane >= |panes| {
        focusedPane := |panes| - 1;
      }
      if focusedPane < 0 {
        focusedPane := 0;
      }
    }

    /** The position of a notebook in the column, or -1. */
    method IndexOf(p: Pane) returns (i: int)
      ensures i == PaneIndex(panes, p)
    {
      for k := 0 to |panes|
        invariant p !in panes[..k]
      {
        if panes[k] == p {
          FirstIndex(panes, p, k);
          return k;
        }
      }
      assert panes[..|panes|] == panes;
      return -1;
    }
  }

  lemma FirstIndex(panes: seq<Pane>, p: Pane, k: nat)
    requires k < |panes| && panes[k] == p && p !in panes[..k]
    ensures PaneIndex(panes, p) == k
  {
    var i := PaneIndex(panes, p);
    assert forall m :: 0 <= m < k ==> panes[m] == panes[..k][m];
    assert forall m :: 0 <= m < i ==> panes[m] == panes[..i][m];
  }

  lemma {:induction false} TotalOfPrefix(columns: seq<Column>, i: nat)
    requires i < |columns|
    ensures TotalWidth(columns[..i + 1]) == TotalWidth(columns[..i]) + columns[i].targetWidth
  {
    if i == 0 {
      assert columns[..1] == [columns[0]];
      assert TotalWidth([columns[0]]) == columns[0].targetWidth + TotalWidth([]);
    } else {
      TotalOfPrefix(columns[1..], i - 1);
      assert columns[..i + 1][1..] == columns[1..][..i];
      assert columns[..i][1..] == columns[1..][..i - 1];
    }
  }

  class WorkspaceStripState {
    ghost var Columns: seq<Column>   // what the column objects hold

    var columns: seq<WorkspaceColumn>
    var focusedCol: int
    var cameraX: real
    var cameraTargetX: real
    var animProfile: Profile
    var ticking: bool
    var activePane: Option<Pane>     // the workspace's last active pane

    ghost predicate Valid()
      reads this, columns
    {
      && |Columns| == |columns|
      && (forall i, j :: 0 <= i < j < |columns| ==> columns[i] != columns[j])
      && forall i :: 0 <= i < |columns| ==> columns[i].Val() == Columns[i]
    }

    ghost function Val(): Strip
      reads this
    {
      Strip(Columns, focusedCol, cameraX, cameraTargetX, animProfile, ticking, activePane)
    }

    constructor CreateRoot(first: Pane, width: int, active: Option<Pane>)
      ensures Valid() && fresh(columns)
      ensures Val() == StripModel.CreateRoot(first, width, active)
    {
      var col := new WorkspaceColumn(first, DEFAULT_COL_WIDTH);
      columns := [col];
      Columns := [NewColumn(first, DEFAULT_COL_WIDTH)];
      focusedCol := 0;
      cameraX, cameraTargetX := 0.0, 0.0;
      animProfile := Default;
      ticking := false;
      activePane := active;
      new;
      ApplyLayout(width);
    }

    // ---- lookups ----

    method FindColumnForNotebook(p: Pane) returns (i: int)
      requires Valid()
      ensures i == FindColumn(Columns, p)
    {
      for k := 0 to |columns|
        invariant forall m :: 0 <= m < k ==> p !in Columns[m].panes
      {
        if p in columns[k].panes {
          return k;
        }
      }
      return -1;
    }

    method ResolveFocusedColumn() returns (i: Option<nat>)
      requires Valid()
      ensures i == ResolveFocusedCol(Val())
    {
      if 0 <= focusedCol < |columns| {
        return Some(focusedCol);
      }
      if activePane.Some? {
        var found := FindColumnForNotebook(activePane.value);
        if found >= 0 {
          return Some(found);
        }
      }
      if |columns| == 0 {
        return None;
      }
      return Some(0);
    }

    // ---- camera ----

    method WidthBefore(n: nat) returns (total: int)
      requires Valid() && n <= |columns|
      ensures total == TotalWidth(Columns[..n])
    {
      total := 0;
      for i := 0 to n
        invariant total == TotalWidth(Columns[..i])
      {
        total := total + columns[i].targetWidth;
        TotalOfPrefix(Columns, i);
      }
    }

    method ClampCamera(viewport: int)
      requires Valid()
      modifies this`cameraTargetX
      ensures Valid()
      ensures Val() == StripModel.ClampCamera(old(Val()), viewport)
    {
      if |columns| == 0 {
        return;
      }
      var total := WidthBefore(|columns|);
      assert Columns[..|columns|] == Columns;
      var maxScroll := total as real - viewport as real;
      if maxScroll < 0.0 {
        maxScroll := 0.0;
      }
      if cameraTargetX < 0.0 {
        cameraTargetX := 0.0;
      }
      if cameraTargetX > maxScroll {
        cameraTargetX := maxScroll;
      }
    }

    method PanToFocusedColumn(width: int)
      requires Valid()
      modifies this`cameraTargetX, this`ticking
      ensures Valid()
      ensures Val() == StripModel.PanToFocusedColumn(old(Val()), width)
    {
      if focusedCol < 0 || focusedCol >= |columns| {
        return;
      }
      var left := WidthBefore(focusedCol);
      var center := left as real + columns[focusedCol].targetWidth as real / 2.0;
      var viewport := Viewport(width);
      cameraTargetX := center - viewport as real / 2.0;
      assert Val() == AimAt(old(Val()), viewport);
      ClampCamera(viewport);
      ticking := true;
    }

    method PanBy(dx: real, width: int)
      requires Valid()
      modifies this`cameraTargetX, this`cameraX
      ensures Valid()
      ensures Val() == StripModel.PanBy(old(Val()), dx, width)
    {
      if dx == 0.0 {
        return;
      }
      cameraTargetX := cameraTargetX + dx;
      ClampCamera(Viewport(width));
      cameraX := cameraTargetX;
    }

    // ---- focus and layout ----

    method FocusedNotebookOf(col: WorkspaceColumn) returns (p: Option<Pane>)
      ensures p == FocusedNotebook(col.Val())
    {
      if |col.panes| > 0 {
        return Some(col.panes[Clamp(col.focusedPane, 0, |col.panes| - 1)]);
      }
      return None;
    }

    method FocusColumn(i: int, width: int)
      requires Valid()
      modifies this`focusedCol, this`activePane, this`cameraTargetX, this`ticking
      ensures Valid()
      ensures Val() == StripModel.FocusColumn(old(Val()), i, width)
    {
      if i < 0 || i >= |columns| {
        return;
      }
      focusedCol := i;
      var focused := FocusedNotebookOf(columns[i]);
      if focused.Some? {
        activePane := focused;
      }
      PanToFocusedColumn(width);
    }

    method OnNotebookFocusEnter(p: Pane, width: int)
      requires Valid()
      modifies this, columns
      ensures Valid() && columns == old(columns)
      ensures Val() == FocusEnter(old(Val()), p, width)
    {
      var i := FindColumnForNotebook(p);
      if i >= 0 {
        var k := columns[i].IndexOf(p);
        columns[i].focusedPane := k;
        Columns := Columns[i := columns[i].Val()];
        FocusColumn(i, width);
      }
    }

    method LayOutAll(viewport: int)
      requires Valid() && viewport > 0
      modifies this`Columns, columns
      ensures Valid() && Columns == LayOutColumns(old(Columns), viewport)
    {
      ghost var was := Columns;
      for i := 0 to |columns|
        invariant Valid() && |Columns| == |was|
        invariant forall k :: 0 <= k < i ==> Columns[k] == LayOutColumn(was[k], viewport)
        invariant forall k :: i <= k < |columns| ==> Columns[k] == was[k]
      {
        columns[i].LayOut(viewport);
        Columns := Columns[i := columns[i].Val()];
      }
    }

    method ApplyLayout(width: int)
      requires Valid()
      modifies this`Columns, this`cameraTargetX, this`ticking, columns
      ensures Valid()
      ensures Val() == StripModel.ApplyLayout(old(Val()), width)
    {
      LayOutAll(Viewport(width));
      PanToFocusedColumn(width);
    }

    // ---- columns come and go ----

    method AddNotebookColumn(p: Pane)
      requires Valid()
      modifies this`columns, this`Columns
      ensures Valid() && |columns| == |old(columns)| + 1
      ensures fresh(columns[|old(columns)|]) && columns[..|old(columns)|] == old(columns)
      ensures Val() == AddColumn(old(Val()), p)
    {
      var col := new WorkspaceColumn(p, DEFAULT_COL_WIDTH);
      columns := columns + [col];
      Columns := Columns + [NewColumn(p, DEFAULT_COL_WIDTH)];
    }

    method InsertColumnAfterActive(p: Pane, width: int)
      requires Valid()
      modifies this, columns
      ensures Valid() && forall c :: c in columns ==> c in old(columns) || fresh(c)
      ensures Val() == StripModel.InsertColumnAfterActive(old(Val()), p, width)
    {
      var at := PositionAfterActive();
      InsertColumnAt(at, p);
      assert forall c :: c in columns ==> c in old(columns) || fresh(c);
      FocusAndLayOut(at, width);
    }

    method FocusAndLayOut(i: int, width: int)
      requires Valid()
      modifies this`Columns, this`focusedCol, this`activePane, this`cameraTargetX, this`ticking, columns
      ensures Valid()
      ensures Val() == StripModel.ApplyLayout(StripModel.FocusColumn(old(Val()), i, width), width)
    {
      FocusColumn(i, width);
      ApplyLayout(width);
    }

    method PositionAfterActive() returns (at: nat)
      requires Valid()
      ensures var active := ResolveFocusedCol(Val());
              at == if active.Some? then Clamp(active.value + 1, 0, |columns|) else 0
      ensures at <= |columns|
    {
      var active := ResolveFocusedColumn();
      if active.None? {
        return 0;
      }
      return Clamp(active.value + 1, 0, |columns|);
    }

    method InsertColumnAt(at: nat, p: Pane)
      requires Valid() && at <= |columns|
      modifies this`columns, this`Columns, this`animProfile
      ensures Valid() && |columns| == |old(columns)| + 1
      ensures fresh(columns[at]) && columns == old(columns)[..at] + [columns[at]] + old(columns)[at..]
      ensures Val() == WithColumn(old(Val()), at, p)
    {
      var col := new WorkspaceColumn(p, INSERT_START_WIDTH);
      columns := columns[..at] + [col] + columns[at..];
      Columns := Columns[..at] + [NewColumn(p, INSERT_START_WIDTH)] + Columns[at..];
      animProfile := Insert;
    }

    method SettleAfterRemove(i: int, removedWidth: real)
      requires Valid()
      modifies this`Columns, columns
      ensures Valid()
      ensures Val() == StripModel.SettleAfterRemove(old(Val()), i, removedWidth)
    {
      if i < 0 || i >= |columns| {
        return;
      }
      var w := if removedWidth <= 0.0 then DEFAULT_COL_WIDTH as real else removedWidth;
      var delta := if w * 0.2 < REMOVE_SETTLE_MAX_DELTA then w * 0.2 else REMOVE_SETTLE_MAX_DELTA;
      var least := (DEFAULT_COL_WIDTH / 2) as real;
      var shrunk := columns[i].currentWidth - delta;
      columns[i].currentWidth := if shrunk > least then shrunk else least;
      Columns := Columns[i := columns[i].Val()];
    }

    method DropColumnObject(i: nat)
      requires Valid() && i < |columns|
      modifies this`columns, this`Columns
      ensures Valid() && columns == old(columns)[..i] + old(columns)[i + 1..]
      ensures forall c :: c in columns ==> c in old(columns)
      ensures Columns == old(Columns)[..i] + old(Columns)[i + 1..]
    {
      columns := columns[..i] + columns[i + 1..];
      Columns := Columns[..i] + Columns[i + 1..];
      assert forall k :: 0 <= k < |columns| ==> columns[k] == old(columns)[if k < i then k else k + 1];
    }

    method RemoveColumnAt(i: nat)
      requires Valid() && i < |columns| && |columns| > 1
      modifies this`columns, this`Columns, this`focusedCol, this`activePane
      ensures Valid() && columns == old(columns)[..i] + old(columns)[i + 1..]
      ensures forall c :: c in columns ==> c in old(columns)
      ensures Val() == CutColumn(old(Val()), i)
    {
      DropColumnObject(i);
      focusedCol := if i >= |columns| then |columns| - 1 else i;
      var focused := FocusedNotebookOf(columns[focusedCol]);
      if focused.Some? {
        activePane := focused;
      }
    }

    method RemoveActiveColumn(width: int) returns (ok: bool)
      requires Valid()
      modifies this, columns
      ensures Valid() && (forall c :: c in columns ==> c in old(columns))
      ensures ok == StripModel.RemoveActiveColumn(old(Val()), width).Some?
      ensures Val() == if ok then StripModel.RemoveActiveColumn(old(Val()), width).value else old(Val())
    {
      if |columns| <= 1 {
        return false;
      }
      var target := ResolveFocusedColumn();
      if target.None? || target.value >= |columns| {
        return false;
      }
      var gone := columns[target.value];
      var removedWidth := if gone.currentWidth > 0.0 then gone.currentWidth else gone.targetWidth as real;
      RemoveColumnAt(target.value);
      FinishRemove(removedWidth, width);
      return true;
    }

    method FinishRemove(removedWidth: real, width: int)
      requires Valid()
      modifies this`animProfile, this`Columns, this`cameraTargetX, this`ticking, columns
      ensures Valid()
      ensures Val() == StripModel.ApplyLayout(
                         StripModel.SettleAfterRemove(old(Val()), old(focusedCol), removedWidth).(profile := Remove), width)
    {
      SettleAfterRemove(focusedCol, removedWidth);
      animProfile := Remove;
      ApplyLayout(width);
    }

    // ---- panes inside a column ----

    method SplitVerticalInColumn(p: Pane, width: int) returns (ok: bool)
      requires Valid()
      modifies this, columns
      ensures Valid() && columns == old(columns)
      ensures ok == SplitVertical(old(Val()), p, width).Some?
      ensures Val() == if ok then SplitVertical(old(Val()), p, width).value else old(Val())
    {
      var target := ResolveFocusedColumn();
      if target.None? || target.value >= |columns| {
        return false;
      }
      var col := columns[target.value];
      var at := Clamp(col.focusedPane + 1, 0, |col.panes|);
      col.panes := col.panes[..at] + [p] + col.panes[at..];
      col.focusedPane := at;
      Columns := Columns[target.value := col.Val()];
      ApplyLayout(width);
      return true;
    }

    method FocusPaneBy(delta: int) returns (ok: bool)
      requires Valid()
      modifies this`activePane, this`Columns, columns
      ensures Valid()
      ensures ok == FocusPane(old(Val()), delta).Some?
      ensures Val() == if ok then FocusPane(old(Val()), delta).value else old(Val())
    {
      if focusedCol < 0 || focusedCol >= |columns| {
        return false;
      }
      var col := columns[focusedCol];
      var target := col.focusedPane + delta;
      if |col.panes| <= 1 || target < 0 || target >= |col.panes| {
        return false;
      }
      col.focusedPane := target;
      Columns := Columns[focusedCol := col.Val()];
      activePane := Some(col.panes[target]);
      return true;
    }

    method RemovePaneFromColumn(p: Pane, width: int) returns (ok: bool)
      requires Valid()
      modifies this, columns
      ensures Valid() && columns == old(columns)
      ensures ok == RemovePane(old(Val()), p, width).Some?
      ensures Val() == if ok then RemovePane(old(Val()), p, width).value else old(Val())
    {
      var i := FindColumnForNotebook(p);
      if i < 0 || |columns[i].panes| <= 1 {
        return false;
      }
      var k := columns[i].IndexOf(p);
      DropPaneAt(i, k);
      ApplyLayout(width);
      return true;
    }

    method DropPaneAt(i: nat, k: nat)
      requires Valid() && i < |columns| && k < |columns[i].panes| && |columns[i].panes| > 1
      modifies this`Columns, this`activePane, columns[i]
      ensures Valid()
      ensures var col := CutPane(old(Columns)[i], k);
              Val() == old(Val()).(columns := old(Columns)[i := col], activePane := FocusedNotebook(col))
    {
      columns[i].RemovePaneAt(k);
      Columns := Columns[i := columns[i].Val()];
      activePane := FocusedNotebookOf(columns[i]);
    }

    // ---- zoom ----

    method ToggleMaximizeColumn(width: int)
      requires Valid()
      modifies this`animProfile, this`cameraTargetX, this`ticking, this`Columns, columns
      ensures Valid()
      ensures Val() == ToggleMaximize(old(Val()), width)
    {
      if focusedCol < 0 || focusedCol >= |columns| {
        return;
      }
      var col := columns[focusedCol];
      col.maximized := !col.maximized;
      col.halfMaximized := false;
      col.targetWidth := if col.maximized then Viewport(width) else DEFAULT_COL_WIDTH;
      Columns := Columns[focusedCol := col.Val()];
      animProfile := Maximize;
      PanToFocusedColumn(width);
    }

    method ToggleHalfMaximizeColumn(width: int)
      requires Valid()
      modifies this`animProfile, this`cameraTargetX, this`ticking, this`Columns, columns
      ensures Valid()
      ensures Val() == ToggleHalfMaximize(old(Val()), width)
    {
      if focusedCol < 0 || focusedCol >= |columns| {
        return;
      }
      var col := columns[focusedCol];
      var wantHalf := !col.halfMaximized;
      col.halfMaximized := wantHalf;
      col.maximized := false;
      col.targetWidth := if wantHalf then Viewport(width) / 2 else DEFAULT_COL_WIDTH;
      Columns := Columns[focusedCol := col.Val()];
      animProfile := Maximize;
      PanToFocusedColumn(width);
    }

    // ---- the animation tick ----

    /** Returns whether the callback is to be kept. */
    method TickCb(dt: real) returns (keep: bool)
      requires Valid()
      modifies this`cameraX, this`ticking, this`animProfile, this`Columns, columns
      ensures Valid()
      ensures (Val(), keep) == Tick(old(Val()), dt)
    {
      var stillMoving := false;
      var x := SmoothToward(cameraX, cameraTargetX, CameraLambda(animProfile), dt);
      if x != cameraX {
        cameraX := x;
        stillMoving := true;
      }
      var columnsMoved := TickAll(WidthLambda(animProfile), dt);
      if !stillMoving && !columnsMoved {
        ticking := false;
        animProfile := Default;
        return false;
      }
      return true;
    }

    method TickAll(rate: real, dt: real) returns (moved: bool)
      requires Valid()
      modifies this`Columns, columns
      ensures Valid() && Columns == TickColumns(old(Columns), rate, dt)
      ensures moved <==> exists k :: 0 <= k < |Columns| && Columns[k].currentWidth != old(Columns)[k].currentWidth
    {
      ghost var was := Columns;
      moved := false;
      for i := 0 to |columns|
        invariant Valid() && |Columns| == |was|
        invariant forall k :: 0 <= k < i ==> Columns[k] == TickColumns(was, rate, dt)[k]
        invariant forall k :: i <= k < |columns| ==> Columns[k] == was[k]
        invariant moved <==> exists k :: 0 <= k < i && Columns[k].currentWidth != was[k].currentWidth
      {
        var columnMoved := columns[i].Tick(rate, dt);
        Columns := Columns[i := columns[i].Val()];
        if columnMoved {
          moved := true;
        }
      }
    }
  }
}
