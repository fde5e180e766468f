/**
  Where a rebuild of the strip puts the panes (src/gtk/session.c:419-552), for any
  saved data: each in the column of the first entry that mentions it, the columns
  in the order of the entries, and what no entry mentions behind them.
 */
module SessionStripPlacement {
  import opened Options
  import opened Sequences
  import opened StripModel
  import opened StripInvariants
  import opened SessionStrip
  import SessionStripCorrupt

  /** The ids an entry mentions: its list, or in the older form its one pane. */
  function Listed(e: SavedColumn): seq<string> {
    if e.NotAnObject? then []
    else if e.paneIds.None? then [e.paneId]
    else Texts(e.paneIds.value)
  }

  function Texts(items: seq<Option<string>>): seq<string> {
    if items == [] then [] else [if items[0].Some? then items[0].value else ""] + Texts(items[1..])
  }

  /** The panes that ids name; an id may name none. */
  function Named(ids: seq<string>, ws: Workspace): seq<Pane> {
    if ids == [] then []
    else
      var p := PaneById(ws.panes, ws.ids, ids[0]);
      (if p.Some? then [p.value] else []) + Named(ids[1..], ws)
  }

  /** All panes the entries mention, in the order in which they do. */
  function MentionedPanes(entries: seq<SavedColumn>, ws: Workspace): seq<Pane> {
    if entries == [] then [] else Named(Listed(entries[0]), ws) + MentionedPanes(entries[1..], ws)
  }

  // ---- first occurrences ----

  /** Every element the first time it occurs, and not at all if it is in `seen`. */
  function FirstTimes(ps: seq<Pane>, seen: set<Pane>): seq<Pane> {
    if ps == [] then []
    else if ps[0] in seen then FirstTimes(ps[1..], seen)
    else [ps[0]] + FirstTimes(ps[1..], seen + {ps[0]})
  }

  lemma {:induction false} FirstTimesAre(ps: seq<Pane>, seen: set<Pane>, p: Pane)
    ensures p in FirstTimes(ps, seen) <==> p in ps && p !in seen
  {
    if ps != [] {
      FirstTimesAre(ps[1..], if ps[0] in seen then seen else seen + {ps[0]}, p);
    }
  }

  /** Of two different elements the one that occurs first comes first. */
  lemma {:induction false} FirstTimesInOrder(ps: seq<Pane>, seen: set<Pane>, i: nat, j: nat) returns (k: nat)
    requires i < j < |FirstTimes(ps, seen)|
    ensures k < |ps| && ps[k] == FirstTimes(ps, seen)[i] && FirstTimes(ps, seen)[j] !in ps[..k + 1]
  {
    if ps[0] in seen {
      k := FirstTimesInOrder(ps[1..], seen, i, j);
      FirstTimesAre(ps[1..], seen, FirstTimes(ps, seen)[j]);
      assert ps[..k + 2] == [ps[0]] + ps[1..][..k + 1];
      k := k + 1;
    } else {
      var rest := FirstTimes(ps[1..], seen + {ps[0]});
      FirstTimesAre(ps[1..], seen + {ps[0]}, rest[j - 1]);
      if i == 0 {
        k := 0;
      } else {
        k := FirstTimesInOrder(ps[1..], seen + {ps[0]}, i - 1, j - 1);
        assert ps[..k + 2] == [ps[0]] + ps[1..][..k + 1];
        k := k + 1;
      }
    }
  }

  lemma {:induction false} FirstTimesConcat(a: seq<Pane>, b: seq<Pane>, seen: set<Pane>)
    ensures FirstTimes(a + b, seen) == FirstTimes(a, seen) + FirstTimes(b, seen + SetOf(FirstTimes(a, seen)))
  {
    if a == [] {
      assert a + b == b && seen + SetOf([]) == seen;
    } else {
      assert (a + b)[1..] == a[1..] + b;
      var seen' := if a[0] in seen then seen else seen + {a[0]};
      FirstTimesConcat(a[1..], b, seen');
      if a[0] !in seen {
        assert seen + SetOf(FirstTimes(a, seen)) == seen' + SetOf(FirstTimes(a[1..], seen'));
      }
    }
  }

  // ---- the order of the panes ----

  lemma {:induction false} CollectIsFirstTimes(listed: seq<Option<string>>, ws: Workspace, seen: set<Pane>)
    ensures Collect(listed, ws, seen) == FirstTimes(Named(Texts(listed), ws), seen)
  {
    if listed != [] {
      var p := PaneById(ws.panes, ws.ids, if listed[0].Some? then listed[0].value else "");
      var rest := Named(Texts(listed[1..]), ws);
      CollectIsFirstTimes(listed[1..], ws, seen);
      if p.Some? {
        assert Named(Texts(listed), ws) == [p.value] + rest;
        assert ([p.value] + rest)[1..] == rest;
        CollectIsFirstTimes(listed[1..], ws, seen + {p.value});
      } else {
        assert Named(Texts(listed), ws) == [] + rest == rest;
      }
    }
  }

  lemma EntryPanesAre(e: SavedColumn, ws: Workspace, seen: set<Pane>)
    ensures EntryPanes(e, ws, seen) == FirstTimes(Named(Listed(e), ws), seen)
  {
    if e.SavedColumn? {
      var listed := if e.paneIds.Some? then e.paneIds.value else [Some(e.paneId)];
      CollectIsFirstTimes(listed, ws, seen);
      assert [Some(e.paneId)][1..] == [];
      assert e.paneIds.None? ==> Texts(listed) == [e.paneId];
    }
  }

  lemma {:induction false} LeftoversAreFirstTimes(panes: seq<Pane>, seen: set<Pane>)
    ensures Flatten(Rows(Leftovers(panes, seen))) == FirstTimes(panes, seen)
    ensures forall k :: 0 <= k < |Leftovers(panes, seen)| ==>
              exists p :: Leftovers(panes, seen)[k].panes == [p] && p in panes && p !in seen
  {
    if panes != [] {
      if panes[0] in seen {
        LeftoversAreFirstTimes(panes[1..], seen);
      } else {
        LeftoversAreFirstTimes(panes[1..], seen + {panes[0]});
        SessionStripCorrupt.FlattenCons(NewColumn(panes[0], DEFAULT_COL_WIDTH), Leftovers(panes[1..], seen + {panes[0]}));
      }
    }
  }

  /** Read off column by column, the panes come in the order of their first
      mention, and those that are not mentioned in the order of the pane array. */
  lemma {:induction false} PanesInOrderOfMention(entries: seq<SavedColumn>, ws: Workspace, seen: set<Pane>)
    ensures Flatten(Rows(RebuildFrom(entries, ws, seen))) == FirstTimes(MentionedPanes(entries, ws) + ws.panes, seen)
  {
    if entries == [] {
      LeftoversAreFirstTimes(ws.panes, seen);
      assert [] + ws.panes == ws.panes;
    } else {
      var here, later := Named(Listed(entries[0]), ws), MentionedPanes(entries[1..], ws) + ws.panes;
      var panes := EntryPanes(entries[0], ws, seen);
      EntryPanesAre(entries[0], ws, seen);
      ConcatAssociates(here, MentionedPanes(entries[1..], ws), ws.panes);
      FirstTimesConcat(here, later, seen);
      PanesInOrderOfMention(entries[1..], ws, seen + SetOf(panes));
      FirstEntryFirst(entries, ws, seen, panes);
    }
  }

  lemma FirstEntryFirst(entries: seq<SavedColumn>, ws: Workspace, seen: set<Pane>, panes: seq<Pane>)
    requires entries != [] && panes == EntryPanes(entries[0], ws, seen)
    ensures Flatten(Rows(RebuildFrom(entries, ws, seen))) ==
            panes + Flatten(Rows(RebuildFrom(entries[1..], ws, seen + SetOf(panes))))
  {
    if panes != [] {
      SessionStripCorrupt.FlattenCons(BuildColumn(entries[0], panes, ws.ids),
                                      RebuildFrom(entries[1..], ws, seen + SetOf(panes)));
    } else {
      assert seen + SetOf([]) == seen;
    }
  }

  // ---- the columns ----

  /** The first entry to mention the pane is number `j`. */
  predicate FirstMentionedIn(entries: seq<SavedColumn>, ws: Workspace, j: nat, p: Pane)
    requires j < |entries|
  {
    && p in Named(Listed(entries[j]), ws)
    && forall i :: 0 <= i < j ==> p !in Named(Listed(entries[i]), ws)
  }

  ghost predicate IsColumnOf(row: seq<Pane>, entries: seq<SavedColumn>, ws: Workspace, seen: set<Pane>, j: nat)
    requires j < |entries|
  {
    forall p :: p in row <==> p !in seen && FirstMentionedIn(entries, ws, j, p)
  }

  ghost predicate IsUnmentioned(row: seq<Pane>, entries: seq<SavedColumn>, ws: Workspace, seen: set<Pane>) {
    exists p :: row == [p] && p in ws.panes && p !in seen && p !in MentionedPanes(entries, ws)
  }

  /** Every column holds exactly the panes that are first mentioned in one of the
      entries, or is the column of one pane that is mentioned nowhere. */
  lemma {:induction false} ColumnsByFirstMention(entries: seq<SavedColumn>, ws: Workspace, seen: set<Pane>, k: nat)
    requires k < |RebuildFrom(entries, ws, seen)|
    ensures var row := RebuildFrom(entries, ws, seen)[k].panes;
            || (exists j: nat :: j < |entries| && IsColumnOf(row, entries, ws, seen, j))
            || IsUnmentioned(row, entries, ws, seen)
  {
    if entries == [] {
      LeftoversAreFirstTimes(ws.panes, seen);
    } else {
      var panes := EntryPanes(entries[0], ws, seen);
      var row := RebuildFrom(entries, ws, seen)[k].panes;
      EntryPanesAre(entries[0], ws, seen);
      forall p ensures p in panes <==> p in Named(Listed(entries[0]), ws) && p !in seen {
        FirstTimesAre(Named(Listed(entries[0]), ws), seen, p);
      }
      if panes != [] && k == 0 {
        assert IsColumnOf(row, entries, ws, seen, 0);
      } else {
        var k' := if panes == [] then k else k - 1;
        ColumnsByFirstMention(entries[1..], ws, seen + SetOf(panes), k');
        LaterColumn(row, entries, ws, seen, panes);
      }
    }
  }

  lemma LaterColumn(row: seq<Pane>, entries: seq<SavedColumn>, ws: Workspace, seen: set<Pane>, panes: seq<Pane>)
    requires entries != [] && forall p :: p in panes <==> p in Named(Listed(entries[0]), ws) && p !in seen
    requires || (exists j: nat :: j < |entries[1..]| && IsColumnOf(row, entries[1..], ws, seen + SetOf(panes), j))
             || IsUnmentioned(row, entries[1..], ws, seen + SetOf(panes))
    ensures || (exists j: nat :: j < |entries| && IsColumnOf(row, entries, ws, seen, j))
            || IsUnmentioned(row, entries, ws, seen)
  {
    if j: nat :| j < |entries[1..]| && IsColumnOf(row, entries[1..], ws, seen + SetOf(panes), j) {
      forall p ensures p !in seen && FirstMentionedIn(entries, ws, j + 1, p) <==>
                       p !in seen + SetOf(panes) && FirstMentionedIn(entries[1..], ws, j, p) {
        assert forall i :: 0 <= i < |entries| - 1 ==> entries[1..][i] == entries[i + 1];
        assert forall i :: 1 <= i < |entries| ==> entries[i] == entries[1..][i - 1];
      }
      assert IsColumnOf(row, entries, ws, seen, j + 1);
    }
  }
}
