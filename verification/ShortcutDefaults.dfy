/**
  No two default shortcuts have the same name or the same key.  Each of the
  numbered lemmas compares some of them with all that follow.
 */
module ShortcutDefaults {
  import opened Shortcuts

  lemma KeysDiffer0()
    ensures forall i, j :: 0 <= i < 4 && i < j < |DEFAULTS| ==>
              DEFAULTS[i].keyval != DEFAULTS[j].keyval || DEFAULTS[i].mods != DEFAULTS[j].mods
  {
  }

  lemma KeysDiffer4()
    ensures forall i, j :: 4 <= i < 8 && i < j < |DEFAULTS| ==>
              DEFAULTS[i].keyval != DEFAULTS[j].keyval || DEFAULTS[i].mods != DEFAULTS[j].mods
  {
  }

  lemma KeysDiffer8()
    ensures forall i, j :: 8 <= i < 12 && i < j < |DEFAULTS| ==>
              DEFAULTS[i].keyval != DEFAULTS[j].keyval || DEFAULTS[i].mods != DEFAULTS[j].mods
  {
  }

  lemma KeysDiffer12()
    ensures forall i, j :: 12 <= i < 16 && i < j < |DEFAULTS| ==>
              DEFAULTS[i].keyval != DEFAULTS[j].keyval || DEFAULTS[i].mods != DEFAULTS[j].mods
  {
  }

  lemma KeysDiffer16()
    ensures forall i, j :: 16 <= i < 24 && i < j < |DEFAULTS| ==>
              DEFAULTS[i].keyval != DEFAULTS[j].keyval || DEFAULTS[i].mods != DEFAULTS[j].mods
  {
  }

  lemma KeysDiffer24()
    ensures forall i, j :: 24 <= i < 43 && i < j < |DEFAULTS| ==>
              DEFAULTS[i].keyval != DEFAULTS[j].keyval || DEFAULTS[i].mods != DEFAULTS[j].mods
  {
  }

  lemma ActionsDiffer0()
    ensures forall i, j :: 0 <= i < 1 && i < j < |DEFAULTS| ==> DEFAULTS[i].action != DEFAULTS[j].action
  {
  }

  lemma ActionsDiffer1()
    ensures forall i, j :: 1 <= i < 2 && i < j < |DEFAULTS| ==> DEFAULTS[i].action != DEFAULTS[j].action
  {
  }

  lemma ActionsDiffer2()
    ensures forall i, j :: 2 <= i < 4 && i < j < |DEFAULTS| ==> DEFAULTS[i].action != DEFAULTS[j].action
  {
  }

  lemma ActionsDiffer4()
    ensures forall i, j :: 4 <= i < 8 && i < j < |DEFAULTS| ==> DEFAULTS[i].action != DEFAULTS[j].action
  {
  }

  lemma ActionsDiffer8()
    ensures forall i, j :: 8 <= i < 16 && i < j < |DEFAULTS| ==> DEFAULTS[i].action != DEFAULTS[j].action
  {
  }

  lemma ActionsDiffer16()
    ensures forall i, j :: 16 <= i < 28 && i < j < |DEFAULTS| ==> DEFAULTS[i].action != DEFAULTS[j].action
  {
  }

  lemma ActionsDiffer28()
    ensures forall i, j :: 28 <= i < 43 && i < j < |DEFAULTS| ==> DEFAULTS[i].action != DEFAULTS[j].action
  {
  }

  lemma DefaultKeysDiffer()
    ensures forall i, j :: 0 <= i < j < |DEFAULTS| ==>
              DEFAULTS[i].keyval != DEFAULTS[j].keyval || DEFAULTS[i].mods != DEFAULTS[j].mods
  {
    KeysDiffer0(); KeysDiffer4(); KeysDiffer8(); KeysDiffer12(); KeysDiffer16(); KeysDiffer24();
  }

  lemma DefaultActionsDiffer()
    ensures ActionsDiffer(DEFAULTS)
  {
    ActionsDiffer0(); ActionsDiffer1(); ActionsDiffer2(); ActionsDiffer4(); ActionsDiffer8(); ActionsDiffer16(); ActionsDiffer28();
  }
}
