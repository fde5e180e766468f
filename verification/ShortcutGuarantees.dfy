/** What can be relied on about the shortcut table over any run. */
module ShortcutGuarantees {
  import opened Options
  import opened Shortcuts
  import opened ShortcutDefaults

  /** A key press runs an action exactly when the action owns what the press
      normalizes to; with an unambiguous table that action is unique. */
  lemma MatchFindsTheOwner(lower: int -> int, t: Table, keyval: int, state: Mods, i: nat)
    requires Unambiguous(lower, t) && i < |t| && BindingOf(lower, t[i]) == Bind(lower, keyval, state)
    ensures Match(lower, t, keyval, state) == Some(t[i].action)
  {
    var k := MatchFrom(lower, t, Bind(lower, keyval, state), 0);
    assert k == i;
  }

  lemma NoMatchWithoutOwner(lower: int -> int, t: Table, keyval: int, state: Mods)
    ensures Match(lower, t, keyval, state).None? <==>
            forall i :: 0 <= i < |t| ==> BindingOf(lower, t[i]) != Bind(lower, keyval, state)
  {
  }

  /** Setting a binding succeeds exactly for a known action and a key that no
      other action owns; a reported conflict is with another action that owns
      it; and what is not bound is not changed. */
  lemma SetSucceedsIff(lower: int -> int, t: Table, action: Option<string>, keyval: int, mods: Mods)
    ensures var o := SetBinding(lower, t, action, keyval, mods);
            && (o.Bound? <==>
                && action.Some? && keyval != 0
                && (exists i :: 0 <= i < |t| && t[i].action == action.value)
                && forall i :: 0 <= i < |t| && t[i].action != action.value ==>
                     BindingOf(lower, t[i]) != Bind(lower, keyval, mods))
            && (o.Conflict? ==> && o.owner < |t| && action.Some? && t[o.owner].action != action.value
                                && BindingOf(lower, t[o.owner]) == Bind(lower, keyval, mods))
            && (!o.Bound? ==> TableAfter(t, o) == t)
  {
    if action.Some? {
      var i := Find(t, action.value);
      var owner := OwnerFrom(lower, t, action.value, Bind(lower, keyval, mods), 0);
    }
  }

  /** A binding that was set is the one the key press finds, and every other
      action keeps its own. */
  lemma SetThenMatch(lower: int -> int, t: Table, action: string, keyval: int, mods: Mods)
    requires ActionsDiffer(t) && Unambiguous(lower, t)
    requires SetBinding(lower, t, Some(action), keyval, mods).Bound?
    ensures var t' := SetBinding(lower, t, Some(action), keyval, mods).table;
            && Match(lower, t', keyval, mods) == Some(action)
            && Unambiguous(lower, t') && SameActions(t, t')
            && forall i :: 0 <= i < |t| && t[i].action != action ==> t'[i] == t[i]
  {
    var i := Find(t, action);
    var t' := SetBinding(lower, t, Some(action), keyval, mods).table;
    assert BindingOf(lower, t'[i]) == Bind(lower, keyval, mods);
    forall k | 0 <= k < |t| && k != i ensures BindingOf(lower, t'[k]) != Bind(lower, keyval, mods) {
      assert t[k].action != action;
    }
    assert Unambiguous(lower, t');
    MatchFindsTheOwner(lower, t', keyval, mods, i);
  }

  // ---- the defaults ----

  /** Lower-case letters, digits, the plain punctuation and the cursor and
      function keys that the defaults use. */
  predicate PlainKey(k: int) {
    || 0x61 <= k <= 0x7a || 0x30 <= k <= 0x39
    || k == 0x2c || k == 0x5b || k == 0x5d
    || k == 0xff0d || 0xff51 <= k <= 0xff56 || k == 0xffc8
  }

  /** gdk_keyval_to_lower leaves those as they are. */
  ghost predicate LowerKeepsPlainKeys(lower: int -> int) {
    forall k :: PlainKey(k) ==> lower(k) == k
  }

  lemma PlainIsNormal(lower: int -> int, k: int)
    requires LowerKeepsPlainKeys(lower) && PlainKey(k)
    ensures NormalizeKeyval(lower, k) == k
  {
  }

  lemma DefaultKeysArePlain()
    ensures forall i :: 0 <= i < |DEFAULTS| ==> PlainKey(DEFAULTS[i].keyval) && DEFAULTS[i].mods.other == 0
  {
  }

  /** The table the program ships with is unambiguous. */
  lemma DefaultsAreUnambiguous(lower: int -> int)
    requires LowerKeepsPlainKeys(lower)
    ensures |DEFAULTS| == 43 && Unambiguous(lower, DEFAULTS) && ActionsDiffer(DEFAULTS)
  {
    DefaultKeysDiffer();
    DefaultActionsDiffer();
    DefaultKeysArePlain();
    TableUnambiguous(lower, DEFAULTS);
  }

  lemma TableUnambiguous(lower: int -> int, t: Table)
    requires LowerKeepsPlainKeys(lower)
    requires forall i :: 0 <= i < |t| ==> PlainKey(t[i].keyval) && t[i].mods.other == 0
    requires forall i, j :: 0 <= i < j < |t| ==> t[i].keyval != t[j].keyval || t[i].mods != t[j].mods
    ensures Unambiguous(lower, t)
  {
    forall i, j | 0 <= i < j < |t| ensures BindingOf(lower, t[i]) != BindingOf(lower, t[j]) {
      PlainIsNormal(lower, t[i].keyval);
      PlainIsNormal(lower, t[j].keyval);
    }
  }

  // ---- migrations ----

  /** Undoing the old swap of the two close shortcuts keeps the table
      unambiguous: two actions trade their bindings. */
  lemma CloseSwapKeepsUnambiguous(lower: int -> int, t: Table)
    requires Unambiguous(lower, t)
    ensures Unambiguous(lower, MigrateCloseSwap(t)) && SameActions(t, MigrateCloseSwap(t))
  {
    var c, k := Find(t, WORKSPACE_CLOSE), Find(t, TAB_CLOSE);
    var t' := MigrateCloseSwap(t);
    if t' != t {
      assert BindingOf(lower, t'[c]) == BindingOf(lower, t[k]);
      assert BindingOf(lower, t'[k]) == BindingOf(lower, t[c]);
      assert forall i :: 0 <= i < |t| && i != c && i != k ==> t'[i] == t[i];
      TradedBindings(lower, t, t', c, k);
    }
  }

  /** It is undone exactly where both shortcuts have the old bindings, wherever
      they are in the table; otherwise nothing changes. */
  lemma CloseSwapIs(t: Table, c: nat, k: nat)
    requires ActionsDiffer(t) && c < |t| && k < |t| && t[c].action == "workspace.close" && t[k].action == "tab.close"
    ensures MigrateCloseSwap(t) ==
            if && t[c].keyval == 'w' as int && NormalizeMods(t[c].mods) == CTRL_SHIFT
               && t[k].keyval == 'd' as int && NormalizeMods(t[k].mods) == CTRL_SHIFT
            then t[c := ShortcutDef("workspace.close", 'd' as int, CTRL_SHIFT)]
                  [k := ShortcutDef("tab.close", 'w' as int, CTRL_SHIFT)]
            else t
  {
    assert Find(t, WORKSPACE_CLOSE) == c && Find(t, TAB_CLOSE) == k;
  }

  lemma TradedBindings(lower: int -> int, t: Table, t': Table, c: nat, k: nat)
    requires |t'| == |t| && c < |t| && k < |t| && c != k && Unambiguous(lower, t)
    requires BindingOf(lower, t'[c]) == BindingOf(lower, t[k]) && BindingOf(lower, t'[k]) == BindingOf(lower, t[c])
    requires forall i :: 0 <= i < |t| && i != c && i != k ==> BindingOf(lower, t'[i]) == BindingOf(lower, t[i])
    ensures Unambiguous(lower, t')
  {
    forall i, j | 0 <= i < j < |t| ensures BindingOf(lower, t'[i]) != BindingOf(lower, t'[j]) {
      var i' := if i == c then k else if i == k then c else i;
      var j' := if j == c then k else if j == k then c else j;
      assert BindingOf(lower, t[i']) != BindingOf(lower, t[j']) by {
        assert i' < j' || j' < i';
      }
    }
  }

  predicate OnBinding(lower: int -> int, d: ShortcutDef, digit: nat, mods: Mods) {
    BindingOf(lower, d) == Binding(KEY_0 + digit, mods)
  }

  /** An action is still on Ctrl and a digit while another one is on Ctrl, Shift
      and that digit. */
  ghost predicate Clashes(lower: int -> int, t: Table, action: string, digit: nat) {
    exists i, j :: && 0 <= i < |t| && t[i].action == action && OnBinding(lower, t[i], digit, CTRL)
                   && 0 <= j < |t| && t[j].action != action && OnBinding(lower, t[j], digit, CTRL_SHIFT)
  }

  /** Moving a workspace shortcut from Ctrl to Ctrl and Shift is not checked for
      a collision: one round keeps the table unambiguous exactly without a clash. */
  lemma DigitRoundIff(lower: int -> int, t: Table, action: string, digit: nat)
    requires Unambiguous(lower, t) && ActionsDiffer(t) && digit <= 9 && LowerKeepsPlainKeys(lower)
    ensures Unambiguous(lower, MigrateDigit(lower, t, action, digit)) <==> !Clashes(lower, t, action, digit)
  {
    var i, t' := Find(t, action), MigrateDigit(lower, t, action, digit);
    if i >= 0 && OnBinding(lower, t[i], digit, CTRL) {
      PlainIsNormal(lower, KEY_0 + digit);
      assert OnBinding(lower, t'[i], digit, CTRL_SHIFT);
      forall k | 0 <= k < |t| && k != i ensures t'[k] == t[k] && t[k].action != action {
      }
      if Clashes(lower, t, action, digit) {
        var k, j :| && 0 <= k < |t| && t[k].action == action && OnBinding(lower, t[k], digit, CTRL)
                    && 0 <= j < |t| && t[j].action != action && OnBinding(lower, t[j], digit, CTRL_SHIFT);
        assert BindingOf(lower, t'[i]) == BindingOf(lower, t'[j]) && i != j;
      }
    }
  }

  /** Whether the migration moves a shortcut in one of the first `n` rounds. */
  predicate Moves(lower: int -> int, d: ShortcutDef, digit: nat, n: nat)
    requires n <= 9
  {
    1 <= digit <= n && d.action == FocusAction(digit) && OnBinding(lower, d, digit, CTRL)
  }

  lemma FocusActionsDiffer(d: nat, e: nat)
    requires d <= 9 && e <= 9
    ensures FocusAction(d) == FocusAction(e) ==> d == e
  {
    var last := |"workspace.focus."|;
    assert FocusAction(d)[last] == '0' + d as char && FocusAction(e)[last] == '0' + e as char;
  }

  predicate Unmoved(lower: int -> int, d: ShortcutDef, n: nat)
    requires n <= 9
  {
    forall digit :: 1 <= digit <= n ==> !Moves(lower, d, digit, n)
  }

  /** What the first `n` rounds make of a shortcut. */
  ghost predicate EntryMigrated(lower: int -> int, was: ShortcutDef, now: ShortcutDef, n: nat)
    requires n <= 9
  {
    && now.action == was.action
    && (forall digit: nat :: Moves(lower, was, digit, n) ==> OnBinding(lower, now, digit, CTRL_SHIFT))
    && (Unmoved(lower, was, n) ==> now == was)
  }

  ghost predicate Migrated(lower: int -> int, t: Table, r: Table, n: nat)
    requires n <= 9
  {
    |r| == |t| && forall i :: 0 <= i < |t| ==> EntryMigrated(lower, t[i], r[i], n)
  }

  /** The rounds do not disturb each other: each moves its own shortcut, if that
      is on Ctrl in the table the migration starts from. */
  lemma {:induction false} RoundsAreIndependent(lower: int -> int, t: Table, n: nat)
    requires n <= 9 && ActionsDiffer(t) && LowerKeepsPlainKeys(lower)
    ensures Migrated(lower, t, MigrateDigits(lower, t, n), n)
  {
    if n > 0 {
      var before := MigrateDigits(lower, t, n - 1);
      RoundsAreIndependent(lower, t, n - 1);
      forall i | 0 <= i < |t| ensures EntryMigrated(lower, t[i], MigrateDigits(lower, t, n)[i], n) {
        RoundOf(lower, t, before, i, n - 1);
      }
    }
  }

  lemma {:induction false} ActionsKept(lower: int -> int, t: Table, n: nat)
    requires n <= 9
    ensures SameActions(t, MigrateDigits(lower, t, n))
  {
    if n > 0 {
      ActionsKept(lower, t, n - 1);
    }
  }

  /** One shortcut in the round after `m` others. */
  lemma RoundOf(lower: int -> int, t: Table, before: Table, i: nat, m: nat)
    requires m < 9 && i < |t| && ActionsDiffer(t) && LowerKeepsPlainKeys(lower) && Migrated(lower, t, before, m)
    ensures EntryMigrated(lower, t[i], MigrateDigit(lower, before, FocusAction(m + 1), m + 1)[i], m + 1)
  {
    var n := m + 1;
    assert EntryMigrated(lower, t[i], before[i], m);
    if t[i].action == FocusAction(n) {
      OnlyThen(lower, t[i], m, n);
      SameFind(lower, t, before, i, m);
      PlainIsNormal(lower, KEY_0 + n);
      assert before[i] == t[i];
      if OnBinding(lower, t[i], n, CTRL) {
        assert Moves(lower, t[i], n, n);
      } else {
        assert Unmoved(lower, t[i], n);
      }
    } else {
      assert forall digit: nat :: Moves(lower, t[i], digit, n) <==> Moves(lower, t[i], digit, m);
    }
  }

  /** The shortcut of a later round has not been moved. */
  lemma OnlyThen(lower: int -> int, d: ShortcutDef, m: nat, n: nat)
    requires m < n <= 9 && d.action == FocusAction(n)
    ensures Unmoved(lower, d, m)
    ensures forall digit: nat :: Moves(lower, d, digit, n) ==> digit == n
  {
    forall digit: nat | digit <= 9 && FocusAction(digit) == FocusAction(n) ensures digit == n {
      FocusActionsDiffer(digit, n);
    }
  }

  lemma SameFind(lower: int -> int, t: Table, before: Table, i: nat, m: nat)
    requires m <= 9 && i < |t| && ActionsDiffer(t) && Migrated(lower, t, before, m)
    ensures Find(before, t[i].action) == i
  {
    var k := Find(before, t[i].action);
    assert EntryMigrated(lower, t[i], before[i], m);
    assert k >= 0 && EntryMigrated(lower, t[k], before[k], m);
    assert k < i || i < k || k == i;
  }

  /** The whole migration, from an unambiguous table: the result is unambiguous
      exactly when for none of its rounds the table it starts from has a clash. */
  lemma DigitMigrationIff(lower: int -> int, t: Table, n: nat)
    requires n <= 9 && Unambiguous(lower, t) && ActionsDiffer(t) && LowerKeepsPlainKeys(lower)
    ensures Unambiguous(lower, MigrateDigits(lower, t, n)) <==>
            forall d: nat :: 1 <= d <= n ==> !Clashes(lower, t, FocusAction(d), d)
    ensures SameActions(t, MigrateDigits(lower, t, n)) && ActionsDiffer(MigrateDigits(lower, t, n))
  {
    var r := MigrateDigits(lower, t, n);
    RoundsAreIndependent(lower, t, n);
    ActionsKept(lower, t, n);
    if d: nat :| 1 <= d <= n && Clashes(lower, t, FocusAction(d), d) {
      ClashRemains(lower, t, r, d, n);
    } else {
      forall i, j | 0 <= i < j < |r| ensures BindingOf(lower, r[i]) != BindingOf(lower, r[j]) {
        NoClashNoMatch(lower, t, r, i, j, n);
      }
    }
  }

  lemma ClashRemains(lower: int -> int, t: Table, r: Table, d: nat, n: nat)
    requires 1 <= d <= n <= 9 && Migrated(lower, t, r, n) && Clashes(lower, t, FocusAction(d), d)
    ensures !Unambiguous(lower, r)
  {
    var i, j :| && 0 <= i < |t| && t[i].action == FocusAction(d) && OnBinding(lower, t[i], d, CTRL)
                && 0 <= j < |t| && t[j].action != FocusAction(d) && OnBinding(lower, t[j], d, CTRL_SHIFT);
    assert EntryMigrated(lower, t[i], r[i], n) && Moves(lower, t[i], d, n);
    assert EntryMigrated(lower, t[j], r[j], n) && Unmoved(lower, t[j], n);
    assert BindingOf(lower, r[i]) == BindingOf(lower, r[j]) && i != j;
  }

  lemma NoClashNoMatch(lower: int -> int, t: Table, r: Table, i: nat, j: nat, n: nat)
    requires n <= 9 && Migrated(lower, t, r, n) && i < |t| && j < |t| && i != j
    requires Unambiguous(lower, t) && ActionsDiffer(t)
    requires forall d: nat :: 1 <= d <= n ==> !Clashes(lower, t, FocusAction(d), d)
    ensures BindingOf(lower, r[i]) != BindingOf(lower, r[j])
  {
    if d: nat :| Moves(lower, t[i], d, n) {
      MovedMatchesNone(lower, t, r, i, d, j, n);
    } else if e: nat :| Moves(lower, t[j], e, n) {
      MovedMatchesNone(lower, t, r, j, e, i, n);
    } else {
      assert EntryMigrated(lower, t[i], r[i], n) && EntryMigrated(lower, t[j], r[j], n);
      assert r[i] == t[i] && r[j] == t[j];
      assert i < j || j < i;
    }
  }

  lemma MovedMatchesNone(lower: int -> int, t: Table, r: Table, i: nat, d: nat, j: nat, n: nat)
    requires n <= 9 && Migrated(lower, t, r, n) && i < |t| && j < |t| && i != j
    requires ActionsDiffer(t) && Moves(lower, t[i], d, n) && !Clashes(lower, t, FocusAction(d), d)
    ensures BindingOf(lower, r[i]) != BindingOf(lower, r[j])
  {
    assert EntryMigrated(lower, t[i], r[i], n) && EntryMigrated(lower, t[j], r[j], n);
    assert OnBinding(lower, r[i], d, CTRL_SHIFT);
    assert t[j].action != t[i].action by {
      assert i < j || j < i;
    }
    if e: nat :| Moves(lower, t[j], e, n) {
      assert OnBinding(lower, r[j], e, CTRL_SHIFT);
    } else {
      assert r[j] == t[j];
      assert !OnBinding(lower, t[j], d, CTRL_SHIFT);
    }
  }

  // ---- a migration that fails ----

  const FOCUS_1 := "workspace.focus.1"
  const NOTES := "notes.toggle"

  /** The defaults after two settings that the program accepts. */
  function TwoSettings(lower: int -> int): Table {
    var t := TableAfter(DEFAULTS, SetBinding(lower, DEFAULTS, Some(FOCUS_1), KEY_0 + 1, CTRL));
    TableAfter(t, SetBinding(lower, t, Some(NOTES), KEY_0 + 1, CTRL_SHIFT))
  }

  lemma NoDefaultOnCtrlAlone()
    ensures forall i :: 0 <= i < |DEFAULTS| ==> DEFAULTS[i].mods != CTRL
    ensures DEFAULTS[6] == ShortcutDef(FOCUS_1, KEY_0 + 1, CTRL_SHIFT) && DEFAULTS[31].action == NOTES
  {
  }

  /** The first workspace is put on Ctrl+1, and the notes on Ctrl+Shift+1, which
      that leaves free.  Both are accepted and nothing is ambiguous; at the next
      start the migration gives both Ctrl+Shift+1. */
  lemma MigrationCanClash(lower: int -> int)
    requires LowerKeepsPlainKeys(lower)
    ensures var t := TwoSettings(lower);
            && Unambiguous(lower, t) && SameActions(DEFAULTS, t)
            && t[6] == ShortcutDef(FOCUS_1, KEY_0 + 1, CTRL) && t[31] == ShortcutDef(NOTES, KEY_0 + 1, CTRL_SHIFT)
            && !Unambiguous(lower, MigrateDigits(lower, t, 9))
  {
    DefaultsAreUnambiguous(lower);
    FirstSetting(lower);
    NoDefaultOnCtrlAlone();
    SecondSetting(lower, DEFAULTS[6 := ShortcutDef(FOCUS_1, KEY_0 + 1, CTRL)]);
    ClashOnOne(lower, TwoSettings(lower));
  }

  lemma ClashOnOne(lower: int -> int, t: Table)
    requires LowerKeepsPlainKeys(lower) && Unambiguous(lower, t) && ActionsDiffer(t) && |t| == 43
    requires t[6] == ShortcutDef(FOCUS_1, KEY_0 + 1, CTRL) && t[31] == ShortcutDef(NOTES, KEY_0 + 1, CTRL_SHIFT)
    ensures !Unambiguous(lower, MigrateDigits(lower, t, 9))
  {
    PlainIsNormal(lower, KEY_0 + 1);
    FirstFocusAction();
    OneClash(lower, t, 6, 31, 1, 9);
  }

  lemma FirstFocusAction()
    ensures FocusAction(1) == FOCUS_1 != NOTES
  {
  }

  lemma OneClash(lower: int -> int, t: Table, i: nat, j: nat, digit: nat, n: nat)
    requires LowerKeepsPlainKeys(lower) && Unambiguous(lower, t) && ActionsDiffer(t)
    requires 1 <= digit <= n <= 9 && i < |t| && j < |t|
    requires t[i].action == FocusAction(digit) && OnBinding(lower, t[i], digit, CTRL)
    requires t[j].action != FocusAction(digit) && OnBinding(lower, t[j], digit, CTRL_SHIFT)
    ensures !Unambiguous(lower, MigrateDigits(lower, t, n))
  {
    assert Clashes(lower, t, FocusAction(digit), digit);
    DigitMigrationIff(lower, t, n);
  }

  lemma FirstSetting(lower: int -> int)
    requires LowerKeepsPlainKeys(lower) && Unambiguous(lower, DEFAULTS) && ActionsDiffer(DEFAULTS)
    ensures SetBinding(lower, DEFAULTS, Some(FOCUS_1), KEY_0 + 1, CTRL) ==
            Bound(DEFAULTS[6 := ShortcutDef(FOCUS_1, KEY_0 + 1, CTRL)])
    ensures Unambiguous(lower, DEFAULTS[6 := ShortcutDef(FOCUS_1, KEY_0 + 1, CTRL)])
  {
    NoDefaultOnCtrlAlone();
    DefaultKeysArePlain();
    OnlyFind(DEFAULTS, 6);
    NobodyOwns(lower, DEFAULTS, FOCUS_1, Bind(lower, KEY_0 + 1, CTRL));
    SetThenMatch(lower, DEFAULTS, FOCUS_1, KEY_0 + 1, CTRL);
  }

  lemma OnlyFind(t: Table, i: nat)
    requires ActionsDiffer(t) && i < |t|
    ensures Find(t, t[i].action) == i
  {
  }

  /** No default has Ctrl as its only modifier. */
  lemma NobodyOwns(lower: int -> int, t: Table, action: string, b: Binding)
    requires forall i :: 0 <= i < |t| ==> NormalizeMods(t[i].mods) != b.mods
    ensures OwnerFrom(lower, t, action, b, 0) < 0
  {
  }

  lemma SecondSetting(lower: int -> int, t: Table)
    requires LowerKeepsPlainKeys(lower) && Unambiguous(lower, DEFAULTS) && ActionsDiffer(DEFAULTS)
    requires t == DEFAULTS[6 := ShortcutDef(FOCUS_1, KEY_0 + 1, CTRL)] && Unambiguous(lower, t)
    ensures SetBinding(lower, t, Some(NOTES), KEY_0 + 1, CTRL_SHIFT) ==
            Bound(t[31 := ShortcutDef(NOTES, KEY_0 + 1, CTRL_SHIFT)])
    ensures Unambiguous(lower, t[31 := ShortcutDef(NOTES, KEY_0 + 1, CTRL_SHIFT)])
  {
    NoDefaultOnCtrlAlone();
    assert ActionsDiffer(t);
    OnlyFind(t, 31);
    var b := Bind(lower, KEY_0 + 1, CTRL_SHIFT);
    assert BindingOf(lower, DEFAULTS[6]) == b;
    forall i | 0 <= i < |t| ensures BindingOf(lower, t[i]) != b {
      if i != 6 {
        assert t[i] == DEFAULTS[i];
        assert i < 6 || 6 < i;
      }
    }
    SetThenMatch(lower, t, NOTES, KEY_0 + 1, CTRL_SHIFT);
  }

  // ---- runs ----

  datatype Op =
    | Set(action: Option<string>, keyval: int, mods: Mods)
    | Reset
    | CloseSwap

  function Apply(lower: int -> int, t: Table, op: Op): Table
    requires |t| <= |DEFAULTS|
  {
    match op
    case Set(action, keyval, mods) => TableAfter(t, SetBinding(lower, t, action, keyval, mods))
    case Reset => ResetAll(t)
    case CloseSwap => MigrateCloseSwap(t)
  }

  lemma ApplyKeepsUnambiguous(lower: int -> int, t: Table, op: Op)
    requires LowerKeepsPlainKeys(lower) && Unambiguous(lower, t) && SameActions(DEFAULTS, t)
    ensures Unambiguous(lower, Apply(lower, t, op)) && SameActions(DEFAULTS, Apply(lower, t, op))
  {
    match op
    case Set(action, keyval, mods) =>
      if SetBinding(lower, t, action, keyval, mods).Bound? {
        DefaultsAreUnambiguous(lower);
        SetThenMatch(lower, t, action.value, keyval, mods);
      }
    case Reset => DefaultsAreUnambiguous(lower);
    case CloseSwap => CloseSwapKeepsUnambiguous(lower, t);
  }

  function Run(lower: int -> int, t: Table, ops: seq<Op>): (r: Table)
    requires |t| <= |DEFAULTS|
    ensures |r| == |t|
    decreases |ops|
  {
    if ops == [] then t else Apply(lower, Run(lower, t, ops[..|ops| - 1]), ops[|ops| - 1])
  }

  /** From any unambiguous table, in particular the defaults, no run of changes,
      resets and the close-shortcut migration makes a key press ambiguous. */
  lemma {:induction false} RunKeepsUnambiguous(lower: int -> int, t: Table, ops: seq<Op>)
    requires LowerKeepsPlainKeys(lower) && Unambiguous(lower, t) && SameActions(DEFAULTS, t)
    ensures Unambiguous(lower, Run(lower, t, ops)) && SameActions(DEFAULTS, Run(lower, t, ops))
    decreases |ops|
  {
    if ops != [] {
      RunKeepsUnambiguous(lower, t, ops[..|ops| - 1]);
      ApplyKeepsUnambiguous(lower, Run(lower, t, ops[..|ops| - 1]), ops[|ops| - 1]);
    }
  }
}
