/**
  Which keys run a shortcut (src/gtk/shortcuts.c:66-120, 390-404): on a US
  keyboard the shifted symbol stands for the key it is on, and the keypad for the
  digits and Return.
 */
module ShortcutKeys {
  import opened Options
  import opened Shortcuts
  import opened ShortcutDefaults
  import opened ShortcutGuarantees

  /** What is on a key with Shift and without. */
  const SHIFTED: string := "<>:?|_+{}\"~!@#$%^&*()"
  const PLAIN: string := ",.;/\\-=[]'`1234567890"

  /** The keypad's keys 0 to 9 with Num Lock, and the same ones without: Insert,
      End, Down, Page Down, Left, Begin, Right, Home, Up, Page Up. */
  const KEYPAD_0: int := 0xffb0
  const KEYPAD_CURSORS: seq<int> := [
    0xff9e, 0xff9c, 0xff99, 0xff9b, 0xff96, 0xff9d, 0xff98, 0xff95, 0xff97, 0xff9a]

  const RETURN: int := 0xff0d
  const KEYPAD_ENTER: int := 0xff8d
  const ISO_ENTER: int := 0xfe34

  predicate SymbolFor(k: int, plain: int) {
    exists i :: 0 <= i < |SHIFTED| && k == SHIFTED[i] as int && plain == PLAIN[i] as int
  }

  predicate KeypadFor(k: int, plain: int) {
    exists d :: 0 <= d <= 9 && (k == KEYPAD_0 + d || k == KEYPAD_CURSORS[d]) && plain == '0' as int + d
  }

  /** A key stands for another one. */
  predicate StandsFor(k: int, plain: int) {
    SymbolFor(k, plain) || KeypadFor(k, plain) || ((k == KEYPAD_ENTER || k == ISO_ENTER) && plain == RETURN)
  }

  /** What a key means: what it stands for, or else its lower-case form. */
  ghost predicate Means(lower: int -> int, k: int, m: int) {
    StandsFor(k, m) || (m == lower(k) && forall p :: !StandsFor(k, p))
  }

  // ---- the table of keys ----

  lemma SymbolIsNormal(lower: int -> int, i: nat)
    requires i < |SHIFTED|
    ensures |SHIFTED| == |PLAIN| && NormalizeKeyval(lower, SHIFTED[i] as int) == PLAIN[i] as int
  {
  }

  lemma KeypadIsNormal(lower: int -> int, d: nat)
    requires d <= 9
    ensures NormalizeKeyval(lower, KEYPAD_0 + d) == '0' as int + d
    ensures NormalizeKeyval(lower, KEYPAD_CURSORS[d]) == '0' as int + d
  {
  }

  lemma StandInIsNormal(lower: int -> int, k: int, plain: int)
    requires StandsFor(k, plain)
    ensures NormalizeKeyval(lower, k) == plain
  {
    if i :| 0 <= i < |SHIFTED| && k == SHIFTED[i] as int && plain == PLAIN[i] as int {
      SymbolIsNormal(lower, i);
    } else if d :| 0 <= d <= 9 && (k == KEYPAD_0 + d || k == KEYPAD_CURSORS[d]) && plain == '0' as int + d {
      KeypadIsNormal(lower, d);
    }
  }

  lemma SymbolStands(k: int, i: nat)
    requires i < |SHIFTED| && k == SHIFTED[i] as int
    ensures StandsFor(k, PLAIN[i] as int)
  {
    assert |SHIFTED| == |PLAIN|;
  }

  lemma KeypadStands(k: int, d: nat)
    requires d <= 9 && (k == KEYPAD_0 + d || k == KEYPAD_CURSORS[d])
    ensures StandsFor(k, '0' as int + d)
  {
    var cursor := KEYPAD_CURSORS[d];
    assert KeypadFor(k, '0' as int + d);
  }

  lemma SpecialKeysStand(lower: int -> int, k: int)
    ensures NormalizeKeyval(lower, k) == lower(k) || exists p :: StandsFor(k, p)
  {
    if i: nat :| i < |SHIFTED| && k == SHIFTED[i] as int {
      SymbolStands(k, i);
    } else if d: nat :| d <= 9 && k == KEYPAD_CURSORS[d] {
      KeypadStands(k, d);
    } else if KEYPAD_0 <= k <= KEYPAD_0 + 9 {
      KeypadStands(k, k - KEYPAD_0);
    } else if k == KEYPAD_ENTER || k == ISO_ENTER {
      assert StandsFor(k, RETURN);
    } else {
      NoneOfThem(lower, k);
    }
  }

  lemma NoneOfThem(lower: int -> int, k: int)
    requires forall i :: 0 <= i < |SHIFTED| ==> k != SHIFTED[i] as int
    requires !(KEYPAD_0 <= k <= KEYPAD_0 + 9) && forall d :: 0 <= d <= 9 ==> k != KEYPAD_CURSORS[d]
    requires k != KEYPAD_ENTER && k != ISO_ENTER
    ensures NormalizeKeyval(lower, k) == lower(k)
  {
    assert SHIFTED[0] as int == 0x3c && SHIFTED[1] as int == 0x3e && SHIFTED[2] as int == 0x3a;
    assert SHIFTED[3] as int == 0x3f && SHIFTED[4] as int == 0x7c && SHIFTED[5] as int == 0x5f;
    assert SHIFTED[6] as int == 0x2b && SHIFTED[7] as int == 0x7b && SHIFTED[8] as int == 0x7d;
    assert SHIFTED[9] as int == 0x22 && SHIFTED[10] as int == 0x7e && SHIFTED[11] as int == 0x21;
    assert SHIFTED[12] as int == 0x40 && SHIFTED[13] as int == 0x23 && SHIFTED[14] as int == 0x24;
    assert SHIFTED[15] as int == 0x25 && SHIFTED[16] as int == 0x5e && SHIFTED[17] as int == 0x26;
    assert SHIFTED[18] as int == 0x2a && SHIFTED[19] as int == 0x28 && SHIFTED[20] as int == 0x29;
    assert KEYPAD_CURSORS[0] == 0xff9e && KEYPAD_CURSORS[1] == 0xff9c && KEYPAD_CURSORS[2] == 0xff99;
    assert KEYPAD_CURSORS[3] == 0xff9b && KEYPAD_CURSORS[4] == 0xff96 && KEYPAD_CURSORS[5] == 0xff9d;
    assert KEYPAD_CURSORS[6] == 0xff98 && KEYPAD_CURSORS[7] == 0xff95 && KEYPAD_CURSORS[8] == 0xff97;
    assert KEYPAD_CURSORS[9] == 0xff9a;
  }

  /** The normal form of a key is what it means. */
  lemma NormalIsMeaning(lower: int -> int, k: int, m: int)
    ensures Means(lower, k, m) <==> NormalizeKeyval(lower, k) == m
  {
    if p :| StandsFor(k, p) {
      StandInIsNormal(lower, k, p);
      if StandsFor(k, m) {
        StandInIsNormal(lower, k, m);
      }
    } else {
      SpecialKeysStand(lower, k);
    }
  }

  // ---- key presses ----

  predicate SameModifiers(a: Mods, b: Mods) {
    a.control == b.control && a.shift == b.shift && a.alt == b.alt && a.super_ == b.super_
  }

  /** In an unambiguous table a press runs an action exactly when its key means
      what the action's key means, and the four modifiers are the same. */
  lemma PressRunsIff(lower: int -> int, t: Table, k: int, state: Mods, i: nat)
    requires Unambiguous(lower, t) && ActionsDiffer(t) && i < |t|
    ensures Match(lower, t, k, state) == Some(t[i].action) <==>
            SameModifiers(state, t[i].mods) && exists m :: Means(lower, k, m) && Means(lower, t[i].keyval, m)
  {
    var m := NormalizeKeyval(lower, k);
    NormalIsMeaning(lower, k, m);
    NormalIsMeaning(lower, t[i].keyval, m);
    if m' :| Means(lower, k, m') && Means(lower, t[i].keyval, m') {
      NormalIsMeaning(lower, k, m');
    }
    if BindingOf(lower, t[i]) == Bind(lower, k, state) {
      MatchFindsTheOwner(lower, t, k, state, i);
    }
  }

  /** A press with a key that stands for another is a press with the other. */
  lemma StandInMatches(lower: int -> int, t: Table, k: int, plain: int, state: Mods)
    requires StandsFor(k, plain) && lower(plain) == plain
    ensures Match(lower, t, k, state) == Match(lower, t, plain, state)
  {
    StandInIsNormal(lower, k, plain);
    PlainStandsForNone(lower, plain, k);
  }

  lemma PlainStandsForNone(lower: int -> int, plain: int, k: int)
    requires StandsFor(k, plain)
    ensures NormalizeKeyval(lower, plain) == lower(plain)
  {
    if i :| 0 <= i < |SHIFTED| && k == SHIFTED[i] as int && plain == PLAIN[i] as int {
      PlainIsLowered(lower, i);
    }
  }

  lemma PlainIsLowered(lower: int -> int, i: nat)
    requires i < |SHIFTED|
    ensures |SHIFTED| == |PLAIN| && NormalizeKeyval(lower, PLAIN[i] as int) == lower(PLAIN[i] as int)
  {
  }

  /** Locks, buttons and other bits of the state make no difference. */
  lemma OtherBitsDoNotMatter(lower: int -> int, t: Table, k: int, state: Mods, state': Mods)
    requires SameModifiers(state, state')
    ensures Match(lower, t, k, state) == Match(lower, t, k, state')
  {
  }

  /** With the default shortcuts Ctrl+Shift and the key of a digit, on which Shift
      makes a symbol, or the keypad's, with Num Lock or without, goes to that
      workspace. */
  lemma DigitsFocusWorkspaces(lower: int -> int, d: nat, k: int, state: Mods)
    requires LowerKeepsPlainKeys(lower) && 1 <= d <= 9 && SameModifiers(state, CTRL_SHIFT)
    requires k == '0' as int + d || StandsFor(k, '0' as int + d)
    ensures Match(lower, DEFAULTS, k, state) == Some("workspace.focus." + ['0' + d as char])
  {
    var i := 5 + d;
    DefaultsAreUnambiguous(lower);
    PlainIsNormal(lower, '0' as int + d);
    if StandsFor(k, '0' as int + d) {
      StandInIsNormal(lower, k, '0' as int + d);
    }
    DefaultDigit(d);
    MatchFindsTheOwner(lower, DEFAULTS, k, state, i);
  }

  lemma DefaultDigit(d: nat)
    requires 1 <= d <= 9
    ensures 5 + d < |DEFAULTS|
    ensures DEFAULTS[5 + d] == ShortcutDef("workspace.focus." + ['0' + d as char], '0' as int + d, CTRL_SHIFT)
  {
  }
}
