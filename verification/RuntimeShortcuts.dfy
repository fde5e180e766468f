/** The shortcut table as the program holds it: an array it overwrites. */
module RuntimeShortcuts {
  import opened Options
  import opened Shortcuts

  class ShortcutTable {
    const lower: int -> int
    const shortcuts: array<ShortcutDef>

    ghost predicate Valid()
      reads this
    {
      shortcuts.Length <= |DEFAULTS|
    }

    constructor (lower: int -> int)
      ensures Valid() && shortcuts[..] == DEFAULTS && this.lower == lower && fresh(shortcuts)
    {
      this.lower := lower;
      var table := new ShortcutDef[|DEFAULTS|](i requires 0 <= i < |DEFAULTS| => DEFAULTS[i]);
      assert table[..] == DEFAULTS;
      shortcuts := table;
    }

    method FindByAction(action: string) returns (k: int)
      ensures k == Find(shortcuts[..], action)
    {
      for i := 0 to shortcuts.Length
        invariant Find(shortcuts[..], action) == FindFrom(shortcuts[..], action, i)
      {
        if shortcuts[i].action == action {
          return i;
        }
      }
      return -1;
    }

    method SetBinding(action: Option<string>, keyval: int, mods: Mods) returns (ok: bool, conflict: Option<nat>)
      modifies shortcuts
      ensures var o := Shortcuts.SetBinding(lower, old(shortcuts[..]), action, keyval, mods);
              && shortcuts[..] == TableAfter(old(shortcuts[..]), o)
              && ok == o.Bound?
              && conflict == if o.Conflict? then Some(o.owner) else None
    {
      if action.None? || keyval == 0 {
        return false, None;
      }
      for i := 0 to shortcuts.Length
        invariant shortcuts[..] == old(shortcuts[..])
        invariant OwnerFrom(lower, shortcuts[..], action.value, Bind(lower, keyval, mods), 0) ==
                  OwnerFrom(lower, shortcuts[..], action.value, Bind(lower, keyval, mods), i)
      {
        if && shortcuts[i].action != action.value
           && NormalizeKeyval(lower, shortcuts[i].keyval) == NormalizeKeyval(lower, keyval)
           && NormalizeMods(shortcuts[i].mods) == NormalizeMods(mods) {
          return false, Some(i);
        }
      }
      var k := FindByAction(action.value);
      if k < 0 {
        return false, None;
      }
      shortcuts[k] := ShortcutDef(shortcuts[k].action, keyval, NormalizeMods(mods));
      return true, None;
    }

    method ResetAll()
      requires Valid()
      modifies shortcuts
      ensures shortcuts[..] == Shortcuts.ResetAll(old(shortcuts[..]))
    {
      for i := 0 to shortcuts.Length
        invariant shortcuts[..i] == DEFAULTS[..i]
      {
        shortcuts[i] := DEFAULTS[i];
      }
    }

    method MigrateCloseShortcutSwap()
      modifies shortcuts
      ensures shortcuts[..] == MigrateCloseSwap(old(shortcuts[..]))
    {
      var c := FindByAction(WORKSPACE_CLOSE);
      var k := FindByAction(TAB_CLOSE);
      if c < 0 || k < 0 {
        return;
      }
      if HasBinding(shortcuts[c], KEY_W, CTRL_SHIFT) && HasBinding(shortcuts[k], KEY_D, CTRL_SHIFT) {
        shortcuts[c] := ShortcutDef(shortcuts[c].action, KEY_D, CTRL_SHIFT);
        shortcuts[k] := ShortcutDef(shortcuts[k].action, KEY_W, CTRL_SHIFT);
      }
    }

    method MigrateShortcutUpdates()
      modifies shortcuts
      ensures shortcuts[..] == MigrateDigits(lower, old(shortcuts[..]), 9)
    {
      for digit := 1 to 10
        invariant shortcuts[..] == MigrateDigits(lower, old(shortcuts[..]), digit - 1)
      {
        var i := FindByAction(FocusAction(digit));
        if i >= 0 {
          if && NormalizeKeyval(lower, shortcuts[i].keyval) == KEY_0 + digit
             && NormalizeMods(shortcuts[i].mods) == CTRL {
            shortcuts[i] := ShortcutDef(shortcuts[i].action, KEY_0 + digit, CTRL_SHIFT);
          }
        }
      }
    }

    method Match(keyval: int, state: Mods) returns (action: Option<string>)
      ensures action == Shortcuts.Match(lower, shortcuts[..], keyval, state)
    {
      ghost var b := Bind(lower, keyval, state);
      for i := 0 to shortcuts.Length
        invariant MatchFrom(lower, shortcuts[..], b, 0) == MatchFrom(lower, shortcuts[..], b, i)
      {
        if && NormalizeKeyval(lower, keyval) == NormalizeKeyval(lower, shortcuts[i].keyval)
           && NormalizeMods(state) == NormalizeMods(shortcuts[i].mods) {
          return Some(shortcuts[i].action);
        }
      }
      return None;
    }
  }
}
