/**
  The shortcut table (src/gtk/shortcuts.c:6-52, 68-130, 180-227, 298-342,
  390-404).  Key values are GDK's; what gdk_keyval_to_lower makes of a key is the
  parameter `lower`.
 */
module Shortcuts {
  import opened Options

  /** The four modifiers that count, and all other bits of a modifier mask. */
  datatype Mods = Mods(control: bool, shift: bool, alt: bool, super_: bool, other: nat)

  datatype ShortcutDef = ShortcutDef(action: string, keyval: int, mods: Mods)

  const NO_MODS := Mods(false, false, false, false, 0)
  const CTRL := Mods(true, false, false, false, 0)
  const CTRL_SHIFT := Mods(true, true, false, false, 0)
  const CTRL_ALT := Mods(true, false, true, false, 0)

  const KEY_0: int := 0x30
  const KEY_D: int := 0x64
  const KEY_W: int := 0x77

  const WORKSPACE_CLOSE := "workspace.close"
  const TAB_CLOSE := "tab.close"

  type Table = seq<ShortcutDef>

  const DEFAULTS: Table := [
    ShortcutDef("workspace.new", 0x6e, CTRL_SHIFT),
    ShortcutDef("workspace.close", 0x64, CTRL_SHIFT),
    ShortcutDef("workspace.next", 0x5d, CTRL_SHIFT),
    ShortcutDef("workspace.prev", 0x5b, CTRL_SHIFT),
    ShortcutDef("workspace.next.alt", 0xff54, CTRL_ALT),
    ShortcutDef("workspace.prev.alt", 0xff52, CTRL_ALT),
    ShortcutDef("workspace.focus.1", 0x31, CTRL_SHIFT),
    ShortcutDef("workspace.focus.2", 0x32, CTRL_SHIFT),
    ShortcutDef("workspace.focus.3", 0x33, CTRL_SHIFT),
    ShortcutDef("workspace.focus.4", 0x34, CTRL_SHIFT),
    ShortcutDef("workspace.focus.5", 0x35, CTRL_SHIFT),
    ShortcutDef("workspace.focus.6", 0x36, CTRL_SHIFT),
    ShortcutDef("workspace.focus.7", 0x37, CTRL_SHIFT),
    ShortcutDef("workspace.focus.8", 0x38, CTRL_SHIFT),
    ShortcutDef("workspace.focus.9", 0x39, CTRL_SHIFT),
    ShortcutDef("pane.tab.new", 0x74, CTRL_SHIFT),
    ShortcutDef("pane.focus.left", 0xff51, CTRL_SHIFT),
    ShortcutDef("pane.focus.right", 0xff53, CTRL_SHIFT),
    ShortcutDef("pane.focus.up", 0xff52, CTRL_SHIFT),
    ShortcutDef("pane.focus.down", 0xff54, CTRL_SHIFT),
    ShortcutDef("shortcuts.show", 0x6b, CTRL_SHIFT),
    ShortcutDef("search.show", 0x73, CTRL_SHIFT),
    ShortcutDef("pane.tab.move", 0x67, CTRL_SHIFT),
    ShortcutDef("tab.close", 0x77, CTRL_SHIFT),
    ShortcutDef("pane.close", 0x78, CTRL_SHIFT),
    ShortcutDef("pane.zoom", 0x7a, CTRL_SHIFT),
    ShortcutDef("pane.zoom.half", 0x6d, CTRL_SHIFT),
    ShortcutDef("terminal.search", 0x66, CTRL_SHIFT),
    ShortcutDef("terminal.scroll.up", 0xff55, CTRL_SHIFT),
    ShortcutDef("terminal.scroll.down", 0xff56, CTRL_SHIFT),
    ShortcutDef("broadcast.toggle", 0x65, CTRL_SHIFT),
    ShortcutDef("notes.toggle", 0x71, CTRL_SHIFT),
    ShortcutDef("settings.show", 0x73, CTRL_ALT),
    ShortcutDef("about.show", 0x61, CTRL_SHIFT),
    ShortcutDef("theme.cycle", 0x2c, CTRL_SHIFT),
    ShortcutDef("theme.select", 0x72, CTRL_SHIFT),
    ShortcutDef("history.show", 0x68, CTRL_SHIFT),
    ShortcutDef("split.horizontal", 0xff0d, CTRL_SHIFT),
    ShortcutDef("split.vertical", 0x6f, CTRL_SHIFT),
    ShortcutDef("window.fullscreen", 0xffc8, NO_MODS),
    ShortcutDef("terminal.copy", 0x63, CTRL_SHIFT),
    ShortcutDef("terminal.paste", 0x76, CTRL_SHIFT),
    ShortcutDef("recording.mark", 0x79, CTRL_SHIFT)]

  // ---- normal forms ----

  function NormalizeMods(m: Mods): Mods {
    m.(other := 0)
  }

  /** Shifted punctuation and keypad keys stand for the plain keys. */
  function NormalizeKeyval(lower: int -> int, keyval: int): int {
    if keyval == 0x3c then 0x2c
    else if keyval == 0x3e then 0x2e
    else if keyval == 0x3a then 0x3b
    else if keyval == 0x3f then 0x2f
    else if keyval == 0x7c then 0x5c
    else if keyval == 0x5f then 0x2d
    else if keyval == 0x2b then 0x3d
    else if keyval == 0x7b then 0x5b
    else if keyval == 0x7d then 0x5d
    else if keyval == 0x22 then 0x27
    else if keyval == 0x7e then 0x60
    else if keyval == 0x21 || keyval == 0xffb1 || keyval == 0xff9c then 0x31
    else if keyval == 0x40 || keyval == 0xffb2 || keyval == 0xff99 then 0x32
    else if keyval == 0x23 || keyval == 0xffb3 || keyval == 0xff9b then 0x33
    else if keyval == 0x24 || keyval == 0xffb4 || keyval == 0xff96 then 0x34
    else if keyval == 0x25 || keyval == 0xffb5 || keyval == 0xff9d then 0x35
    else if keyval == 0x5e || keyval == 0xffb6 || keyval == 0xff98 then 0x36
    else if keyval == 0x26 || keyval == 0xffb7 || keyval == 0xff95 then 0x37
    else if keyval == 0x2a || keyval == 0xffb8 || keyval == 0xff97 then 0x38
    else if keyval == 0x28 || keyval == 0xffb9 || keyval == 0xff9a then 0x39
    else if keyval == 0x29 || keyval == 0xffb0 || keyval == 0xff9e then 0x30
    else if keyval == 0xfe34 || keyval == 0xff8d then 0xff0d
    else lower(keyval)
  }

  datatype Binding = Binding(keyval: int, mods: Mods)

  function Bind(lower: int -> int, keyval: int, mods: Mods): Binding {
    Binding(NormalizeKeyval(lower, keyval), NormalizeMods(mods))
  }

  function BindingOf(lower: int -> int, d: ShortcutDef): Binding {
    Bind(lower, d.keyval, d.mods)
  }

  // ---- tables ----

  /** Every action has a binding of its own. */
  ghost predicate Unambiguous(lower: int -> int, t: Table) {
    forall i, j :: 0 <= i < j < |t| ==> BindingOf(lower, t[i]) != BindingOf(lower, t[j])
  }

  ghost predicate ActionsDiffer(t: Table) {
    forall i, j :: 0 <= i < j < |t| ==> t[i].action != t[j].action
  }

  predicate SameActions(t: Table, t': Table) {
    |t| == |t'| && forall i :: 0 <= i < |t| ==> t[i].action == t'[i].action
  }

  /** The index of an action, or -1. */
  function Find(t: Table, action: string): (i: int)
    ensures -1 <= i < |t|
    ensures i >= 0 ==> t[i].action == action && forall k :: 0 <= k < i ==> t[k].action != action
    ensures i < 0 ==> forall k :: 0 <= k < |t| ==> t[k].action != action
  {
    FindFrom(t, action, 0)
  }

  function FindFrom(t: Table, action: string, from: nat): (i: int)
    requires from <= |t|
    ensures -1 <= i < |t| && (i >= 0 ==> from <= i)
    ensures i >= 0 ==> t[i].action == action && forall k :: from <= k < i ==> t[k].action != action
    ensures i < 0 ==> forall k :: from <= k < |t| ==> t[k].action != action
    decreases |t| - from
  {
    if from == |t| then -1 else if t[from].action == action then from else FindFrom(t, action, from + 1)
  }

  /** The first shortcut with a binding, or -1. */
  function MatchFrom(lower: int -> int, t: Table, b: Binding, from: nat): (i: int)
    requires from <= |t|
    ensures -1 <= i < |t| && (i >= 0 ==> from <= i)
    ensures i >= 0 ==> BindingOf(lower, t[i]) == b && forall k :: from <= k < i ==> BindingOf(lower, t[k]) != b
    ensures i < 0 ==> forall k :: from <= k < |t| ==> BindingOf(lower, t[k]) != b
    decreases |t| - from
  {
    if from == |t| then -1 else if BindingOf(lower, t[from]) == b then from else MatchFrom(lower, t, b, from + 1)
  }

  /** shortcut_match: the action of a key press. */
  function Match(lower: int -> int, t: Table, keyval: int, state: Mods): Option<string> {
    var i := MatchFrom(lower, t, Bind(lower, keyval, state), 0);
    if i < 0 then None else Some(t[i].action)
  }

  datatype Outcome = Rejected | Conflict(owner: nat) | Bound(table: Table)

  /** The first shortcut of another action with the binding, or -1. */
  function OwnerFrom(lower: int -> int, t: Table, action: string, b: Binding, from: nat): (i: int)
    requires from <= |t|
    ensures -1 <= i < |t|
    ensures i >= 0 ==> t[i].action != action && BindingOf(lower, t[i]) == b
    ensures i < 0 ==> forall k :: from <= k < |t| ==> t[k].action == action || BindingOf(lower, t[k]) != b
    ensures i >= 0 ==> from <= i && forall k :: from <= k < i ==> t[k].action == action || BindingOf(lower, t[k]) != b
    decreases |t| - from
  {
    if from == |t| then -1
    else if t[from].action != action && BindingOf(lower, t[from]) == b then from
    else OwnerFrom(lower, t, action, b, from + 1)
  }

  /** shortcut_set_binding. */
  function SetBinding(lower: int -> int, t: Table, action: Option<string>, keyval: int, mods: Mods): Outcome {
    if action.None? || keyval == 0 then Rejected
    else if OwnerFrom(lower, t, action.value, Bind(lower, keyval, mods), 0) >= 0 then
      Conflict(OwnerFrom(lower, t, action.value, Bind(lower, keyval, mods), 0))
    else if Find(t, action.value) < 0 then Rejected
    else
      var i := Find(t, action.value);
      Bound(t[i := ShortcutDef(t[i].action, keyval, NormalizeMods(mods))])
  }

  function TableAfter(t: Table, o: Outcome): Table {
    if o.Bound? then o.table else t
  }

  /** shortcut_reset_all: the defaults, as far as the table goes. */
  function ResetAll(t: Table): (r: Table)
    requires |t| <= |DEFAULTS|
    ensures |r| == |t|
  {
    DEFAULTS[..|t|]
  }

  predicate HasBinding(d: ShortcutDef, keyval: int, mods: Mods) {
    d.keyval == keyval && NormalizeMods(d.mods) == mods
  }

  /** migrate_close_shortcut_swap_if_needed. */
  function MigrateCloseSwap(t: Table): (r: Table)
    ensures |r| == |t|
  {
    var c, k := Find(t, WORKSPACE_CLOSE), Find(t, TAB_CLOSE);
    if c >= 0 && k >= 0 && HasBinding(t[c], KEY_W, CTRL_SHIFT) && HasBinding(t[k], KEY_D, CTRL_SHIFT)
    then t[c := ShortcutDef(t[c].action, KEY_D, CTRL_SHIFT)][k := ShortcutDef(t[k].action, KEY_W, CTRL_SHIFT)]
    else t
  }

  /** One round of migrate_shortcut_updates_if_needed: a workspace shortcut that
      is still on Ctrl and a digit moves to Ctrl, Shift and that digit. */
  function MigrateDigit(lower: int -> int, t: Table, action: string, digit: nat): (r: Table)
    ensures |r| == |t|
  {
    var i := Find(t, action);
    if i >= 0 && BindingOf(lower, t[i]) == Binding(KEY_0 + digit, CTRL)
    then t[i := ShortcutDef(t[i].action, KEY_0 + digit, CTRL_SHIFT)]
    else t
  }

  /** "workspace.focus." and a digit. */
  function FocusAction(digit: nat): string
    requires digit <= 9
  {
    "workspace.focus." + ['0' + digit as char]
  }

  /** The first `n` rounds. */
  function MigrateDigits(lower: int -> int, t: Table, n: nat): (r: Table)
    requires n <= 9
    ensures |r| == |t|
  {
    if n == 0 then t else MigrateDigit(lower, MigrateDigits(lower, t, n - 1), FocusAction(n), n)
  }
}
