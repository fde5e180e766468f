# PrettyMux, modelled and proved in Dafny

PrettyMux is a terminal multiplexer for GTK.  Behind its widgets are state
machines and algorithms over trees and sequences; this project models them in
Dafny 4.11 and proves what they are for.  `dafny verify dfyconfig.toml` checks
everything.

Each part has a specification on values (functions over datatypes), theorems
about it, and, where the program updates things in place, classes and methods
with the program's own loops and branches that are proved to compute exactly
what the specification says.

| part | specification and theorems | in the program's form |
|---|---|---|
| clipboard requests | `ClipboardProtocol.dfy`, `ClipboardGuarantees.dfy` | `ClipboardCallbacks.dfy` |
| frames of the terminal | `FrameFlip.dfy` | `FrameFlip.dfy` |
| strip layout and its animation | `StripModel.dfy`, `StripInvariants.dfy`, `StripEffects.dfy`, `StripCamera.dfy`, `StripAnimation.dfy` | `WorkspaceStrip.dfy` |
| strip layout in session files | `SessionStrip.dfy`, `SessionStripCorrupt.dfy`, `SessionStripPlacement.dfy`, `SessionStripMembers.dfy`, `SessionStripRoundTrip.dfy`, `SessionStripZoom.dfy` | `SessionRestore.dfy` |
| classic layout in session files | `SessionLayout.dfy`, `SessionLayoutRoundTrip.dfy`, `SessionDividers.dfy` | `SessionLayoutRestore.dfy`, `SessionDividers.dfy` |
| pane ids | `PaneIds.dfy` | `PaneIds.dfy` |
| changing the layout mode | `WorkspaceLayout.dfy` | `WorkspaceLayout.dfy` |
| project icons | `IconQueue.dfy`, `IconSearch.dfy`, `IconScores.dfy`, `IconPending.dfy`, `IconDeliveries.dfy`, `IconOwnership.dfy` | `IconSearcher.dfy`, `IconRoot.dfy`, `IconPending.dfy` |
| shortcuts | `Shortcuts.dfy`, `ShortcutDefaults.dfy`, `ShortcutGuarantees.dfy`, `ShortcutKeys.dfy` | `RuntimeShortcuts.dfy` |
| notifications | `Notifications.dfy` | `Notifications.dfy` |
| JSON escaping | `JsonEscape.dfy` | `JsonEscape.dfy` |
| instance ids | `InstanceIds.dfy`, `NestedSlots.dfy` | `InstanceIds.dfy`, `NestedSlots.dfy` |

`Options.dfy`, `Sequences.dfy` and `Decimals.dfy` hold what the others share.

## What the environment is assumed to do

- Ghostty consumes an unconfirmed completion or calls the confirm callback once
  from inside it; a confirmed completion or a denial always consumes the request.
  Outstanding requests, reads in flight and open dialogs have different
  addresses; an address may be reused as soon as its request is settled.
- A weak reference to a terminal is lost only after the terminal was disposed,
  a read finishes at most once, and a dialog answers at most once.
- Widths in motion and the camera are real numbers; the ratio of a divider and its
  product with a size are a real number each, within one rounding of a double.  Frame times lie in
  the range to which the program clamps them (src/gtk/workspace_strip.c:136-159).
- The toolkit's measurements, the clock, the file system, live sockets and saved
  sessions are parameters.

## Where the code does something other than one might expect

- Saved panes go back to the leaves of a classic layout by their index in the
  pane array.  `SessionLayoutRoundTrip.LeavesKeepTheirPanes` says exactly when that
  is right, `RestoreCanSwapPanes` shows three splits after which it is not.
- Pane-id normalization does not look whether a generated id is taken, and its
  counter starts again with the program (`PaneIds.NormalizedIds`,
  `PaneIds.CountersCanClash`).
- In the icon search the preferred context is inherited from the root, which has
  it; so the depth limit of 3 never applies
  (`IconSearch.VisitsTheOpenDirectories`).
- The Ctrl+digit migration does not look for collisions
  (`ShortcutGuarantees.DigitMigrationIff`, `MigrationCanClash`).
- Truncating the product of two doubles can move a restored divider back by a
  pixel (`SessionDividers.PositionRoundTrip`, `DividersCanDrift`).
- Restoring checks no zoom flag against the other, and the member of older files
  can add one (`SessionStripZoom.RestoreKeepsInvIff`, `OldAndNewCanClash`).
- The listeners of an icon search share a string that one of them may free
  (`IconOwnership.StringStaysIff`, `ListenerCanFree`).
- Reordering workspaces leaves notifications behind, as a comment in the code
  says (`Notifications.MoveBreaksTrackingIff`).
- Changing the layout mode swaps the primary pane with the first instead of
  moving it, and a trip to the strip and back flattens the nesting of splits
  (`WorkspaceLayout.ThereAndBack`).
- A child instance whose base name has 60 characters or more shares names between
  some of its 999 slots (`NestedSlots.SlotsDifferIff`); five nested instances are
  enough for that (`NestedSlots.NestingReachesLongBases`).

## Model

| member | source | states |
|---|---|---|
| `ClipboardProtocol.SettleIsSafe` | src/gtk/main.c:730-761 | settling the pending request of a live terminal is never a misuse of a request: it closes exactly the request that the pending address names and keeps the log balanced |
| `ClipboardProtocol.SecondRequestIsDeniedAtOnce` | src/gtk/main.c:764-833 | a request that finds another one pending is answered STARTED, denied on the spot, and nothing else in the world changes |
| `ClipboardProtocol.RequestKeepsInv` | src/gtk/main.c:764-833 | a clipboard request in any state keeps the protocol invariant |
| `ClipboardProtocol.ReadDoneKeepsInv` | src/gtk/main.c:730-761 | a finished read keeps the invariant, whether it is stale, is consumed, or re-enters the confirm callback |
| `ClipboardProtocol.RespondKeepsInv` | src/gtk/main.c:835-861 | the answer to a dialog keeps the invariant, also when its terminal has gone |
| `ClipboardProtocol.DisposeKeepsInv` | src/gtk/ghostty_terminal.c:1168-1184 | disposing of a terminal at any moment settles what is pending before the surface is freed and keeps the invariant |
| `ClipboardProtocol.StaleReadStep` | src/gtk/main.c:730-761 | the step of a read that outlived its terminal removes the read, changes nothing else and keeps the invariant |
| `ClipboardProtocol.StepKeepsInv` | src/gtk/main.c:680-926 | every step of every interleaving over any number of terminals keeps the invariant |
| `ClipboardProtocol.RunKeepsInv` | src/gtk/main.c:680-926 | the invariant holds in every world of every run |
| `ClipboardGuarantees.SettledAtMostOnce` | src/gtk/main.c:686-698 | at every point of every run each request has been started at most once and settled at most as often; no settled, foreign or dead request is ever used and no surface is freed while a request waits for it |
| `ClipboardGuarantees.DrainedMeansSettled` | src/gtk/main.c:686-698 | when no read is in flight and no dialog is open, every request answered STARTED has been settled exactly once |
| `ClipboardGuarantees.ExactlyOneCarrier` | src/gtk/ghostty_terminal.c:1467-1549 | a pending request has a live surface and exactly one read or dialog, which carries that very request; otherwise there is none |
| `ClipboardGuarantees.StaleCallbacksNeverMatch` | src/gtk/ghostty_terminal.c:1487-1491 | a callback whose address equals the pending one was made for that request, although addresses are reused |
| `ClipboardGuarantees.StepEffect` | src/gtk/main.c:730-861 | what one step may do: leave other terminals alone, and close a request only by a consumed read, an answer or disposal; a confirmed completion needs the answer allow, a closing terminal denies |
| `ClipboardGuarantees.DisposedReadsAreCancelled` | src/gtk/ghostty_terminal.c:1527-1549 | after disposal all reads of the terminal have been cancelled and its dialog is queued for destruction |
| `ClipboardGuarantees.RequestIsAcceptedIff` | src/gtk/main.c:764-833 | a request is answered STARTED exactly when the terminal is live, text or a list was asked for and the text is there; it becomes the pending one with one new read, or is denied if another is pending; in all other cases nothing changes |
| `ClipboardGuarantees.TheLogTells` | src/gtk/main.c:686-698 | what the theorems count as a misuse: a settled, foreign or dead request used, or a surface freed with a request, and nothing else |
| `ClipboardCallbacks.GhosttyTerminal.ClipboardBegin` | src/gtk/ghostty_terminal.c:1467-1485 | one request at a time: the new one is registered with a new cancellable, or refused with nothing changed |
| `ClipboardCallbacks.GhosttyTerminal.ClipboardEnd` | src/gtk/ghostty_terminal.c:1493-1501 | the three clipboard fields are cleared and no other |
| `ClipboardCallbacks.App.ReadClipboardCb` | src/gtk/main.c:764-833 | the callback takes exactly the Request step; which of the three answers it gives is said in terms of the terminal and the arguments |
| `ClipboardCallbacks.App.ClipboardReadDoneCb` | src/gtk/main.c:730-761 | the callback takes exactly the ReadDone step, re-entrant confirmation included |
| `ClipboardCallbacks.App.ConfirmReadClipboardCb` | src/gtk/main.c:863-926 | the re-entrant callback hands a pending request to a new dialog and ignores any other |
| `ClipboardCallbacks.App.ClipboardConfirmResponseCb` | src/gtk/main.c:835-861 | the callback takes exactly the Respond step |
| `ClipboardCallbacks.App.ClipboardAbort` | src/gtk/ghostty_terminal.c:1527-1549 | the read is cancelled, a pending request denied through a live surface, the dialog queued for destruction |
| `ClipboardCallbacks.App.Dispose` | src/gtk/ghostty_terminal.c:1168-1184 | disposal takes exactly the Dispose step |
| `FrameFlip.PictureRows` | src/gtk/ghostty_terminal.c:466-472 | each row of the picture is the row of the frame counted from the other end |
| `FrameFlip.FlippedTwice` | src/gtk/ghostty_terminal.c:466-472 | flipping is its own inverse |
| `FrameFlip.PresentableIff` | src/gtk/ghostty_terminal.c:448-461 | a frame is presented exactly when it has a pixel, its rows hold four bytes each and its whole size is there and can be allocated |
| `FrameFlip.PresentFrame` | src/gtk/ghostty_terminal.c:440-473 | the loop fills the buffer with the flipped frame, and a frame is refused exactly when its sizes do not fit |
| `StripInvariants.InsertKeepsInv` | src/gtk/workspace_strip.c:640-690 | the new column comes right after the focused one and gets the focus; all other columns keep their panes and order |
| `StripInvariants.RemoveKeepsInv` | src/gtk/workspace_strip.c:692-741 | removal happens exactly when another column remains; it removes that column's panes only and focuses the neighbour |
| `StripInvariants.SplitKeepsInv` | src/gtk/workspace_strip.c:885-950 | the new pane comes right below the focused one and has the focus; other columns are untouched |
| `StripInvariants.DropKeepsInv` | src/gtk/workspace_strip.c:1020-1109 | a pane is removed exactly when it shares its column; nothing else moves |
| `StripInvariants.ZoomKeepsInv` | src/gtk/workspace_strip.c:768-831 | toggling either zoom keeps the structure, and the two are never both set |
| `StripInvariants.MoveFocusKeepsInv` | src/gtk/workspace_strip.c:954-1016 | moving the focus inside a column stays in range and changes no panes |
| `StripInvariants.TickStopsExactlyAtRest` | src/gtk/workspace_strip.c:314-362 | the tick asks to be removed exactly when the camera and all widths are at their targets; it then changes nothing but its profile |
| `StripInvariants.ApplyKeepsInv` | src/gtk/workspace_strip.c:448-1109 | every operation keeps the structure of the strip and changes the sequence of panes by its own insertion or removal only |
| `StripInvariants.RunKeepsInv` | src/gtk/workspace_strip.c:448-1109 | over every run: focus indices in range, no empty column, no pane twice, never both zooms, and nothing in motion without a tick |
| `StripEffects.ZoomZooms` | src/gtk/workspace_strip.c:768-798 | maximizing gives the focused column the width of the window, undoing it 600; the other zoom goes off and nothing else changes |
| `StripEffects.HalfZoomZooms` | src/gtk/workspace_strip.c:800-831 | the same with half the window |
| `StripEffects.ZoomTwice` | src/gtk/workspace_strip.c:768-831 | either zoom done twice leaves everything but the width, which is 600 |
| `StripEffects.RelayoutFits` | src/gtk/workspace_strip.c:510-548 | every maximized column gets the width of the window, every half-maximized one half of it, every other keeps a positive width |
| `StripEffects.FocusFocuses` | src/gtk/workspace_strip.c:448-466 | the column gets the focus and its focused pane becomes the active one |
| `StripEffects.EnterFocusesPane` | src/gtk/workspace_strip.c:468-493 | the entered pane gets the focus of its column and becomes the active one; a pane that is not in the strip changes nothing |
| `StripEffects.MoveFocusMoves` | src/gtk/workspace_strip.c:954-1016 | up and down make the pane before or after the focused and active one, if there is one |
| `StripEffects.ResolvedColumnIs` | src/gtk/workspace_strip.c:246-286 | which column an operation is about when the focused one is out of range: that of the active pane, else the first |
| `StripEffects.CreateCreates` | src/gtk/workspace_strip.c:561-609 | a new strip has one column of 600, drawn from its left edge |
| `StripEffects.AddAppends` | src/gtk/workspace_strip.c:613-638 | an appended column is 600 wide, unzoomed and not focused |
| `StripEffects.InsertInserts` | src/gtk/workspace_strip.c:640-690 | an inserted column grows from 180 to 600, has the focus and its pane is active; the others are laid out as they were |
| `StripEffects.RemoveSettles` | src/gtk/workspace_strip.c:692-741 | the column that takes over is drawn narrower by a fifth of what was removed, 120 at most, and at least 300 wide; its focused pane is active |
| `StripEffects.SplitFocusesInColumn` | src/gtk/workspace_strip.c:885-950 | a split changes panes and focus of its column and no width, zoom or active pane |
| `StripEffects.DropFocusesInColumn` | src/gtk/workspace_strip.c:1020-1109 | after a pane is removed the focus of its column is at the same place or the last, and the pane there is active |
| `StripCamera.PanShowsFocusedColumn` | src/gtk/workspace_strip.c:366-417 | after panning the camera target is in range; a focused column that fits is entirely visible, a wider one fills the view |
| `StripCamera.PanCentres` | src/gtk/workspace_strip.c:366-417 | the middle of the focused column is in the middle of the view, or as near as the range permits |
| `StripCamera.EveryPanShowsFocus` | src/gtk/workspace_strip.c:366-417 | the same after every panning operation of any run |
| `StripCamera.ScrollStaysInRange` | src/gtk/workspace_strip.c:419-444 | scrolling by hand moves target and picture by the full amount, or to the end of the range |
| `StripAnimation.FrameShrinks` | src/gtk/workspace_strip.c:122-133 | a frame leaves at most 467/480 of a distance, and none of one below half a pixel |
| `StripAnimation.FrameCovers` | src/gtk/workspace_strip.c:122-133 | what a frame leaves of every distance, exactly, for each of the four kinds of animation |
| `StripAnimation.StepIsClamped` | src/gtk/workspace_strip.c:122-133 | however long a frame is, a value does not go past its target or backwards |
| `StripAnimation.ArrivesInTime` | src/gtk/workspace_strip.c:314-362 | with fixed targets everything has arrived after a number of frames that is logarithmic in the largest distance |
| `StripAnimation.TickRemovesItself` | src/gtk/workspace_strip.c:314-362 | the tick callback is removed within that bound, and not before everything has arrived |
| `StripAnimation.NoOvershoot` | src/gtk/workspace_strip.c:122-133 | a frame moves every value towards its target, never past it |
| `WorkspaceStrip.WorkspaceStripState.CreateRoot` | src/gtk/workspace_strip.c:561-609 | a new strip has one column with the first pane |
| `WorkspaceStrip.WorkspaceStripState.ClampCamera` | src/gtk/workspace_strip.c:366-386 | the loop and clamping in place do to the values what the specification says |
| `WorkspaceStrip.WorkspaceStripState.PanToFocusedColumn` | src/gtk/workspace_strip.c:388-417 | the prefix sum and centring in place do what the specification says |
| `WorkspaceStrip.WorkspaceStripState.PanBy` | src/gtk/workspace_strip.c:419-444 | scrolling in place does what the specification says |
| `WorkspaceStrip.WorkspaceStripState.FocusColumn` | src/gtk/workspace_strip.c:448-466 | focusing in place does what the specification says |
| `WorkspaceStrip.WorkspaceStripState.OnNotebookFocusEnter` | src/gtk/workspace_strip.c:468-493 | a focus event in place does what the specification says |
| `WorkspaceStrip.WorkspaceStripState.ApplyLayout` | src/gtk/workspace_strip.c:510-548 | laying out in place does what the specification says |
| `WorkspaceStrip.WorkspaceStripState.AddNotebookColumn` | src/gtk/workspace_strip.c:613-638 | appending a column object does what the specification says |
| `WorkspaceStrip.WorkspaceStripState.InsertColumnAfterActive` | src/gtk/workspace_strip.c:640-690 | inserting a column object does what the specification says |
| `WorkspaceStrip.WorkspaceStripState.RemoveActiveColumn` | src/gtk/workspace_strip.c:692-741 | removing a column object does what the specification says, and reports whether it did |
| `WorkspaceStrip.WorkspaceStripState.SplitVerticalInColumn` | src/gtk/workspace_strip.c:885-950 | splitting in place does what the specification says |
| `WorkspaceStrip.WorkspaceStripState.RemovePaneFromColumn` | src/gtk/workspace_strip.c:1020-1109 | removing a pane in place does what the specification says |
| `WorkspaceStrip.WorkspaceStripState.ToggleMaximizeColumn` | src/gtk/workspace_strip.c:768-798 | maximizing in place does what the specification says |
| `WorkspaceStrip.WorkspaceStripState.ToggleHalfMaximizeColumn` | src/gtk/workspace_strip.c:800-831 | half maximizing in place does what the specification says |
| `WorkspaceStrip.WorkspaceStripState.TickCb` | src/gtk/workspace_strip.c:314-362 | a frame in place moves the values as specified, and its return value is that of the specification |
| `SessionStripCorrupt.RebuildPermutesPanes` | src/gtk/session.c:419-625 | whatever the file says, rebuilt columns hold the panes of the workspace, each once; none is empty and every focus is in range |
| `SessionStripCorrupt.RebuildHappens` | src/gtk/session.c:419-441 | columns are rebuilt exactly when the file has a non-empty column list and the workspace a pane |
| `SessionStripCorrupt.SecondPassKeeps` | src/gtk/session.c:823-899 | the second pass over arbitrary entries moves no pane and leaves every column sound |
| `SessionStripCorrupt.RestoreIsSound` | src/gtk/session.c:784-960 | restoring arbitrary data keeps the panes and a sound strip, and after a rebuild the pane array is the concatenation of the columns |
| `SessionStripPlacement.PanesInOrderOfMention` | src/gtk/session.c:419-552 | read off column by column, rebuilt panes come in the order of their first mention in any file, older entries included, then the unmentioned in the order of the pane array |
| `SessionStripPlacement.ColumnsByFirstMention` | src/gtk/session.c:419-552 | a rebuilt column holds exactly the panes first mentioned in one of the entries, or is that of one unmentioned pane |
| `SessionStripPlacement.FirstTimesInOrder` | src/gtk/session.c:446-552 | of two panes the one mentioned first comes first |
| `SessionStripMembers.EntryShapesColumn` | src/gtk/session.c:500-899 | focus, width and flags of a column are what its entry says; where it says nothing, those of a new column or those it had |
| `SessionStripMembers.EntryMeansColumn` | src/gtk/session.c:823-860 | an entry is applied to the first column that holds its pane, else to the one with its number, else not at all |
| `SessionStripMembers.StateMeansFocus` | src/gtk/session.c:900-925 | the focus goes to the pane the state names, else to the column with the number it names or that had it, else to the first |
| `SessionStripMembers.OlderFilesMaximize` | src/gtk/session.c:927-956 | the maximized column of older files: the first that holds the pane they name, else the one with the number, else none |
| `SessionStripMembers.EntryIsSaved` | src/gtk/session.c:639-783 | what is written for a column: the ids of its panes in order, its focus in both forms, width and flags |
| `SessionStripMembers.StateIsSaved` | src/gtk/session.c:639-783 | what is written besides: the focused column and pane, and the first maximized column for older readers |
| `SessionStripZoom.PassFlags` | src/gtk/session.c:823-899 | a zoom flag ends as the last entry applied to the column that mentions it says |
| `SessionStripZoom.RestoreKeepsInvIff` | src/gtk/session.c:784-960 | a restored strip satisfies the whole strip invariant exactly when the file asks for no column to be zoomed both ways |
| `SessionStripZoom.TidyFilesAskForOne` | src/gtk/session.c:823-956 | entries that mention both flags or none and never set both, and older members that do not interfere, ask for no such column |
| `SessionStripZoom.SavedRestoresInv` | src/gtk/session.c:651-960 | what a strip with the invariant saves restores to one with the invariant |
| `SessionStripZoom.OldAndNewCanClash` | src/gtk/session.c:927-956 | a file that half-maximizes a column in the present form and maximizes it in the older one leaves it both |
| `SessionStripRoundTrip.RebuildCopies` | src/gtk/session.c:446-552 | from what was saved, the first pass makes one column of each saved one, in order, and then one of each unknown pane |
| `SessionStripRoundTrip.SecondPassCopies` | src/gtk/session.c:823-899 | every saved entry finds its own column again in the second pass and gives it its flags back |
| `SessionStripRoundTrip.LegacyIsIgnored` | src/gtk/session.c:927-956 | the members written for older readers change nothing for a newer one |
| `SessionStripRoundTrip.SaveRestoreRoundTrip` | src/gtk/session.c:639-960 | save then restore gives back columns, pane order, focused pane per column, focused column, both flags, and the width of every column that is not zoomed |
| `SessionRestore.StripWorkspace.GetPaneById` | src/gtk/workspace.c:908-922 | the scan finds the first pane with an id; the empty id finds none |
| `SessionRestore.StripWorkspace.CollectPanes` | src/gtk/session.c:461-492 | the loop over listed ids collects the panes that exist and are free, once each |
| `SessionRestore.StripWorkspace.BuildFromEntries` | src/gtk/session.c:446-552 | the loop over entries builds the columns the specification says |
| `SessionRestore.StripWorkspace.BuildLeftovers` | src/gtk/session.c:554-574 | the loop over the pane array builds one column for each pane left over |
| `SessionRestore.StripWorkspace.RebuildColumns` | src/gtk/session.c:419-625 | rebuilding replaces columns and pane array as specified, or changes neither |
| `SessionRestore.StripWorkspace.UpdateOne` | src/gtk/session.c:850-898 | the fields of one column after an entry was applied |
| `SessionRestore.StripWorkspace.ApplyEntries` | src/gtk/session.c:823-899 | the second loop, and whether it maximized a column |
| `SessionRestore.StripWorkspace.RestoreFocus` | src/gtk/session.c:901-925 | the focus by pane id, else by index, else the first column |
| `SessionRestore.StripWorkspace.RestoreStripState` | src/gtk/session.c:784-960 | the whole restore in place does what the specification says |
| `SessionLayout.ReplaceInside` | src/gtk/workspace.c:5028-5110 | replacing a leaf inside what was put into a tree is putting the result into the tree |
| `SessionLayout.LeavesAround` | src/gtk/workspace.c:5028-5110 | replacing a leaf changes the row of leaves at that place only |
| `SessionLayout.ParentAfterSplit` | src/gtk/session.c:1210-1216 | after a split the new paned widget is the parent of the pane that was split |
| `SessionLayout.GrowLeaves` | src/gtk/session.c:1173-1241 | whatever was saved, and also where a restore stops early, the leaves that grow from a pane are that pane, leftmost, and the panes created, each once |
| `SessionLayout.RatioIs` | src/gtk/session.c:1144-1162 | a ratio outside 0 to 1 is brought to the nearer end, a missing one is one half |
| `SessionLayoutRoundTrip.RestoreIsLocal` | src/gtk/session.c:1173-1241 | restoring into a leaf of a larger tree does to that leaf what restoring it alone does, and nothing to the rest |
| `SessionLayoutRoundTrip.RestoreConservesPanes` | src/gtk/session.c:1173-1241 | for arbitrary saved layouts the leaves remain the panes of the pane array, each once |
| `SessionLayoutRoundTrip.RestoreRebuilds` | src/gtk/session.c:1173-1241 | a restore succeeds exactly for full saved trees, and then has their shape and orientations with each clamped ratio scheduled on the matching split |
| `SessionDividers.PositionRoundTrip` | src/gtk/session.c:1023-1142 | at an unchanged size above 10 the divider comes back to its position or one pixel before, and to its position exactly when the product of the doubles is not below it |
| `SessionDividers.DividersCanDrift` | src/gtk/session.c:1040-1142 | a size and a position that double arithmetic brings back one pixel off |
| `SessionDividers.SetsAtFirstSize` | src/gtk/session.c:1102-1162 | the timer sets the divider at the first tick that finds a size above 10, among the first 61, or never |
| `SessionDividers.SavedRatioIs` | src/gtk/session.c:1023-1048 | what a divider saves, inside its widget, outside it, and without a size |
| `SessionDividers.RestoredPositionIs` | src/gtk/session.c:1102-1142 | what the timer sets is inside the widget and the whole pixels of the product |
| `SessionDividers.SplitRestore.Tick` | src/gtk/session.c:1102-1142 | one tick in place: the position it sets, whether it goes on and how many ticks remain |
| `SessionDividers.SplitRestore.RunTimer` | src/gtk/session.c:1102-1142 | the ticks over any sizes set the position that belongs to the tick of the specification, or none |
| `SessionLayoutRoundTrip.SaveRestoreShape` | src/gtk/session.c:1050-1241 | saving any tree and restoring it gives the same shape, orientations and ratios |
| `SessionLayoutRoundTrip.LeavesKeepTheirPanes` | src/gtk/session.c:1639-1660 | every restored leaf is the pane saved there exactly when the saved pane array lists the panes in the order in which a restore creates them |
| `SessionLayoutRoundTrip.AssignedIdsFollowCreation` | src/gtk/session.c:241-275 | the same for the ids that are assigned after a restore |
| `SessionLayoutRoundTrip.RestoreCanSwapPanes` | src/gtk/session.c:1173-1241 | three ordinary splits after which saving and restoring exchanges two panes: the array, the saved tree and the leaves before and after |
| `SessionLayoutRestore.ClassicWorkspace.SplitPaneTarget` | src/gtk/workspace.c:5028-5110 | the target leaf becomes a split whose start it is and whose end is a new pane, appended to the pane array |
| `SessionLayoutRestore.ClassicWorkspace.ScheduleSplitRestore` | src/gtk/session.c:1144-1162 | the ratio is clamped to 0..1 and scheduled for the widget |
| `SessionLayoutRestore.ClassicWorkspace.RestoreLayoutNode` | src/gtk/session.c:1173-1241 | the recursive procedure in place does what the specification says |
| `PaneIds.NormalizedIds` | src/gtk/session.c:208-239 | every id is non-empty, first holders keep theirs, and the ids differ exactly when no id, as it is generated, already belongs to one of the panes before |
| `PaneIds.FreshCounterSuffices` | src/gtk/session.c:199-239 | they differ when no pane comes with an id that is still to be generated |
| `PaneIds.CountersCanClash` | src/gtk/session.c:228-232 | the code does not check for that: after a restart, when the counter is at 1 again, a saved generated id is given to a second pane |
| `PaneIds.NormalizeWorkspacePaneIds` | src/gtk/session.c:208-239 | the loop overwrites the ids as specified |
| `PaneIds.SavedOrderIsAssigned` | src/gtk/session.c:241-275 | different saved ids, one per pane, are assigned in order |
| `PaneIds.AssignedIsNormalized` | src/gtk/session.c:241-275 | for any saved data, assigning gives the panes what normalising the saved ids would give them |
| `PaneIds.UntouchedKeepTheirs` | src/gtk/session.c:254-262 | a pane whose entry is no object keeps its id |
| `PaneIds.AssignPaneIdsFromSavedOrder` | src/gtk/session.c:241-275 | the loops overwrite the ids as specified |
| `Decimals.DecimalInjective` | src/gtk/session.c:199-204 | different counters are printed differently |
| `WorkspaceLayout.RebuildConservesPanes` | src/gtk/workspace_layout.c:44-136 | the new root's panes, the pane array and the columns are the old leaves with the primary swapped to the front |
| `WorkspaceLayout.OrderKeptIff` | src/gtk/workspace_layout.c:73-86 | the order of the panes survives exactly when the primary was leftmost |
| `WorkspaceLayout.ThereAndBack` | src/gtk/workspace_layout.c:44-136 | from classic to strip and back: the order of one rebuild, as a left comb |
| `WorkspaceLayout.RebuildRepairs` | src/gtk/workspace_layout.c:44-136 | whatever the tree and the pane array hold: every pane below the overlay, or in the array if there is none, and the primary are laid out once each |
| `WorkspaceLayout.RebuildFailsIff` | src/gtk/workspace_layout.c:44-54 | a change of mode fails exactly without an overlay or a primary, and then changes nothing |
| `WorkspaceLayout.StripHoldsPanes` | src/gtk/workspace_layout.c:95-104 | the strip that is built satisfies the strip invariant and holds the panes in order |
| `WorkspaceLayout.CollectNotebooks` | src/gtk/workspace_layout.c:5-34 | the recursive walk collects every notebook of the tree once, in order |
| `WorkspaceLayout.SwapPrimaryToFront` | src/gtk/workspace_layout.c:73-84 | the scan swaps the primary with the first element in place |
| `WorkspaceLayout.LayoutWorkspace.RebuildForLayoutMode` | src/gtk/workspace_layout.c:44-136 | the whole rebuild in place does what the specification says |
| `IconQueue.VisitsInFront` | src/gtk/project_icon_cache.c:454-520 | the front of the queue comes out first, and its children after all that was behind it |
| `IconQueue.VisitsLevelByLevel` | src/gtk/project_icon_cache.c:454-520 | the queue yields the tree level by level |
| `IconQueue.VisitsExactlyTheReachable` | src/gtk/project_icon_cache.c:454-520 | it yields every node below the start and no other, for any tree of bounded depth |
| `IconQueue.VisitsOnce` | src/gtk/project_icon_cache.c:454-520 | no node is visited twice where none has a child twice |
| `IconSearch.BestIsFirstMinimum` | src/gtk/project_icon_cache.c:389-405 | keeping the best so far finds the first file of least score, or none exactly if no file has one |
| `IconSearch.VisitsTheOpenDirectories` | src/gtk/project_icon_cache.c:478-508 | the search enters exactly the directories up to depth 6 that no hidden or pruned name leads to; preferred names make no difference |
| `IconSearch.VisitsEachOnce` | src/gtk/project_icon_cache.c:454-520 | each of them once |
| `IconSearch.ProbeIff` | src/gtk/project_icon_cache.c:407-437 | the quick part looks for exactly the favoured names that exist in the existing well-known folders |
| `IconSearch.WalkIff` | src/gtk/project_icon_cache.c:478-516 | the walk looks at exactly the unhidden files of the directories it enters, whatever their names and depth |
| `IconScores.ScoreIs` | src/gtk/project_icon_cache.c:295-388 | which files have a score, and that it is what the name is worth less what the folders above it are worth, wherever they are |
| `IconScores.NameRankIs` | src/gtk/project_icon_cache.c:334-346 | a favoured name is worth its place in the list, another that begins like one 140, the rest 220 |
| `IconScores.CandidateIff` | src/gtk/project_icon_cache.c:312-332 | the favoured names are covered by the four beginnings |
| `IconScores.ImageIff` | src/gtk/project_icon_cache.c:295-310 | an image is told by what follows the last dot, in whatever case |
| `IconScores.FavouredFirst` | src/gtk/project_icon_cache.c:334-388 | in one folder the name that is favoured first is preferred |
| `IconSearcher.ProbeCandidateDirs` | src/gtk/project_icon_cache.c:407-437 | the nested loops find the best candidate in the well-known places |
| `IconSearcher.ReadEntry` | src/gtk/project_icon_cache.c:478-516 | one entry is queued, considered or skipped as the rules say |
| `IconSearcher.SearchForIcon` | src/gtk/project_icon_cache.c:439-526 | the result is the best of the probed files and a first part of the walk; without early exit and deadline no favoured file in a well-known folder and no unhidden file in an open directory has a lower score |
| `IconSearcher.BestIsOptimal` | src/gtk/project_icon_cache.c:389-405 | the best of a list has the least score, the first of it; or no file has one |
| `IconRoot.RootForPath` | src/gtk/project_icon_cache.c:249-293 | the nearest marked directory upwards, else the nearest with a hint, else the directory |
| `IconPending.StepKeepsOneSearch` | src/gtk/project_icon_cache.c:615-712 | a root has listeners exactly while one search for it runs, and never two |
| `IconPending.StepConserves` | src/gtk/project_icon_cache.c:528-712 | every accepted request is delivered, queued, waiting or about to be called: one of them, once |
| `IconPending.RunKeepsInv` | src/gtk/project_icon_cache.c:528-727 | in every run, with requests made from callbacks and stale entries evicted |
| `IconPending.OneCallEach` | src/gtk/project_icon_cache.c:528-712 | every callback is called at most once and with the root it asked for; once searches, listeners and idles have drained, exactly once |
| `IconDeliveries.AskAnswersFromCache` | src/gtk/project_icon_cache.c:661-712 | a request is answered with what the cache holds, when it holds something and the file is there; else it waits, with a search if none runs |
| `IconDeliveries.EndTellsWhatWasFound` | src/gtk/project_icon_cache.c:615-659 | the listeners of a search are told what it found, or nothing if the file has gone, and the cache says the same |
| `IconDeliveries.CallbacksAreToldTheTruth` | src/gtk/project_icon_cache.c:528-712 | in every run whatever a callback is told was what the cache held, or the search found, when the answer was made |
| `IconPending.IconCache.Lookup` | src/gtk/project_icon_cache.c:558-581 | the cached icon, or none; a stale entry is evicted |
| `IconPending.IconCache.Submit` | src/gtk/project_icon_cache.c:661-712 | the request in place takes exactly the Ask step |
| `IconPending.IconCache.SearchComplete` | src/gtk/project_icon_cache.c:615-659 | the end of a search in place takes exactly the SearchEnded step |
| `IconOwnership.StringStaysIff` | src/gtk/project_icon_cache.c:558-656 | the string handed to the listeners of a search lives exactly until a step replaces the entry or finds its file gone |
| `IconOwnership.CachedStays` | src/gtk/project_icon_cache.c:558-656 | until then it is also what the cache answers |
| `IconOwnership.ListenerCanFree` | src/gtk/project_icon_cache.c:646-656 | a listener that looks its root up when the file has gone frees the string due to the next |
| `ShortcutGuarantees.MatchFindsTheOwner` | src/gtk/shortcuts.c:390-404 | a key press runs the action that owns what the press normalizes to |
| `ShortcutGuarantees.NoMatchWithoutOwner` | src/gtk/shortcuts.c:390-404 | and none exactly if nobody owns it |
| `ShortcutKeys.PressRunsIff` | src/gtk/shortcuts.c:66-120 | a press runs an action exactly when its key means the same as the action's and the four modifiers are the same |
| `ShortcutKeys.NormalIsMeaning` | src/gtk/shortcuts.c:73-120 | a key means what it stands for on a US keyboard or keypad, else its lower-case form |
| `ShortcutKeys.StandInMatches` | src/gtk/shortcuts.c:73-120 | a press with a shifted symbol or a keypad key is a press with the key it stands for |
| `ShortcutKeys.OtherBitsDoNotMatter` | src/gtk/shortcuts.c:66-71 | other bits of the modifier state make no difference |
| `ShortcutKeys.DigitsFocusWorkspaces` | src/gtk/shortcuts.c:6-52 | with the defaults Ctrl+Shift and a digit's key, its symbol or either keypad key goes to that workspace |
| `ShortcutGuarantees.SetSucceedsIff` | src/gtk/shortcuts.c:298-332 | setting succeeds exactly for a known action and a key no other action owns; a reported conflict is real; what fails changes nothing |
| `ShortcutGuarantees.SetThenMatch` | src/gtk/shortcuts.c:298-332 | a binding that was set is found by its key press, and other actions keep theirs |
| `ShortcutGuarantees.DefaultsAreUnambiguous` | src/gtk/shortcuts.c:6-52 | the 43 default shortcuts have different names and different normalized bindings |
| `ShortcutGuarantees.CloseSwapKeepsUnambiguous` | src/gtk/shortcuts.c:180-201 | the close-shortcut migration trades two bindings and creates no ambiguity |
| `ShortcutGuarantees.CloseSwapIs` | src/gtk/shortcuts.c:180-201 | the two bindings are traded exactly where both actions have the old ones; otherwise nothing changes |
| `ShortcutGuarantees.DigitRoundIff` | src/gtk/shortcuts.c:203-227 | one round creates an ambiguity exactly when its action is on Ctrl+digit and another is on Ctrl+Shift+digit |
| `ShortcutGuarantees.DigitMigrationIff` | src/gtk/shortcuts.c:203-227 | and so do the nine rounds together: the bindings differ afterwards exactly when no digit has that clash in the table they start from |
| `ShortcutGuarantees.MigrationCanClash` | src/gtk/shortcuts.c:203-332 | two accepted settings after which the migration gives one binding to two actions |
| `ShortcutGuarantees.RunKeepsUnambiguous` | src/gtk/shortcuts.c:180-342 | no run of changes, resets and close-swap migrations makes a key press ambiguous |
| `RuntimeShortcuts.ShortcutTable.SetBinding` | src/gtk/shortcuts.c:298-332 | the two loops over the array do what the specification says |
| `RuntimeShortcuts.ShortcutTable.ResetAll` | src/gtk/shortcuts.c:334-342 | the loop restores the defaults |
| `RuntimeShortcuts.ShortcutTable.MigrateCloseShortcutSwap` | src/gtk/shortcuts.c:180-201 | the migration in place does what the specification says |
| `RuntimeShortcuts.ShortcutTable.MigrateShortcutUpdates` | src/gtk/shortcuts.c:203-227 | the nine rounds in place do what the specification says |
| `RuntimeShortcuts.ShortcutTable.Match` | src/gtk/shortcuts.c:390-404 | the scan returns the first shortcut with the normalized binding |
| `Notifications.RemovalIsExact` | src/gtk/notifications.c:144-175 | when a workspace goes, exactly its own notifications go with it |
| `Notifications.StepKeepsInv` | src/gtk/notifications.c:98-175 | posts, toasts and workspaces opened or closed keep every entry on its workspace |
| `Notifications.PostKeepsNewest` | src/gtk/notifications.c:98-112 | a notification goes to the end of the list, and the oldest of 50 goes |
| `Notifications.RunKeepsInv` | src/gtk/notifications.c:98-175 | over any run: at most 50 entries, in the order of posting, each still naming the workspace it was posted for, and so the toast |
| `Notifications.MoveKeepsCurrent` | src/gtk/workspace.c:4239-4283 | the selected workspace stays selected when the list is reordered |
| `Notifications.MoveBreaksTrackingIff` | src/gtk/workspace.c:4239-4293 | reordering is not reported to notifications: one stays with its workspace exactly when its index is outside the moved stretch |
| `Notifications.NotificationList.AddFull` | src/gtk/notifications.c:98-112 | the loop trims from the front until 50 remain |
| `Notifications.NotificationList.OnWorkspaceRemoved` | src/gtk/notifications.c:144-175 | the backward loop removes and re-indexes in place as specified |
| `JsonEscape.DecodeInverts` | src/gtk/prettymux-open.c:570-593 | reading the escaped form as the inside of a JSON string (section 7 of RFC 8259) gives back any NUL-free text |
| `JsonEscape.EscapesOnlyWhatItMust` | src/gtk/prettymux-open.c:570-593 | what may stand for itself does; quotes, backslashes, tabs and ends of lines take two bytes, other control characters six |
| `JsonEscape.EscapeKeepsUtf8` | src/gtk/prettymux-open.c:570-593 | the escaped form is UTF-8 exactly when the text is |
| `JsonEscape.EscapedReadsBack` | src/gtk/prettymux-open.c:570-593 | so a JSON reader gets the text back exactly when it is UTF-8 |
| `JsonEscape.EscapeInBuffer` | src/gtk/prettymux-open.c:570-593 | the write pointer stays within six bytes for each and one, sprintf's terminator included, and the buffer holds the escaped text |
| `JsonEscape.EscapeGrowing` | src/gtk/prettymux_agent_cli.c:66-101 | the agent's escaper produces the same text; no input gives an empty one |
| `InstanceIds.SanitizeIsIdempotent` | src/gtk/app_state.c:37-54 | a cleaned id is clean, fits its buffer and is not changed by being cleaned again |
| `InstanceIds.AllowedIff` | src/gtk/app_state.c:17-35 | what may be in a name: letters, digits, hyphen, underscore and dot of ASCII |
| `InstanceIds.SanitizeInto` | src/gtk/app_state.c:37-54 | the loop writes the allowed characters that fit, and a zero |
| `InstanceIds.ComparisonIsTotalOrder` | src/gtk/app_state.c:257-294 | the comparison is a strict total order, with minus signs, leading zeros and numbers beyond 64 bits |
| `InstanceIds.NumbersInOrder` | src/gtk/app_state.c:257-294 | numbers are ordered by value: 2 before 10 |
| `InstanceIds.NumbersBeforeWords` | src/gtk/app_state.c:257-294 | numbers come before words and before numbers beyond 64 bits |
| `InstanceIds.MinusWraps` | src/gtk/app_state.c:257-273 | a number with a minus sign counts as what it wraps to in 64 bits |
| `InstanceIds.WordsInOrder` | src/gtk/app_state.c:275-294 | words are ordered by the first character in which they differ |
| `InstanceIds.ScanDefault` | src/gtk/prettymux-open.c:275-316 | the scan finds the live id before all other live ones, or none exactly if none is live |
| `InstanceIds.DefaultIgnoresListingOrder` | src/gtk/prettymux-open.c:275-316 | what it finds does not depend on the order of the directory |
| `InstanceIds.DefaultHeadsSortedList` | src/gtk/app_state.c:296-302 | it is the first of the sorted list of live instances |
| `NestedSlots.CandidatesAreClean` | src/gtk/app_state.c:109-129 | every candidate is clean and fits, so the final cleaning changes nothing |
| `NestedSlots.NamesAre` | src/gtk/app_state.c:109-129 | a child is named after parent and lane, its slots after the child; only what does not fit is cut off |
| `NestedSlots.SlotsDifferIff` | src/gtk/app_state.c:109-129 | all 999 slot names of a base differ exactly when it has at most 59 characters |
| `NestedSlots.LongBasesDoNot` | src/gtk/app_state.c:109-129 | from 60 characters on, truncation gives slots 10 and 100 one name |
| `NestedSlots.NestingReachesLongBases` | src/gtk/app_state.c:109-129 | instances nested in a lane of five letters have names that tell the slots apart exactly up to depth 4 |
| `NestedSlots.Allocate` | src/gtk/app_state.c:338-374 | the first offline saved slot, base first; else the first offline slot; else the base |
| `NestedSlots.LiveOnlyIfAllLive` | src/gtk/app_state.c:338-374 | a live id is chosen only if the base and all slots are live |
| `NestedSlots.AssignNestedChild` | src/gtk/app_state.c:305-377 | the assigned id is that of the chosen slot, first offline saved, else first offline, else the base; of the base for an explicit child slot; and it is valid |

## Left out

- GTK widgets, styles, signals, reference counts and reparenting: what remains of
  them is the tree, the columns and the step that each callback performs.
- The order of the children of the strip's box: a vertical split and a pane removal
  append the column's root again at its end (src/gtk/workspace_strip.c:936-940,
  1088-1092), so that order can differ from the order of the columns.
- Rounding of floating-point numbers, but for the dividers of splits.
- The 64-bit wrap-around of the counter of generated pane ids.
- JSON parsing and writing: a saved state is a datatype whose members may be
  missing or of another kind.
- The text, MIME lists and remembered answers of clipboard requests; writing to the
  clipboard; what Ghostty does with a completed request.
- Saving a strip that has no columns (src/gtk/session.c:725-752): a strip keeps one.
- Which pane is active after a change of the layout mode: the focus that is given
  then decides it.
- Ownership of the icon cache's user data (its destroy notifiers); the callbacks are
  covered.
- Files that become live, saved or missing while one search or one allocation runs.
- Shortcut files that already contain a binding twice: the table theorems start
  from an unambiguous table.
- The C string functions' errno and locale; ids consist of allowed characters, so
  white space and plus signs in front of numbers do not occur.
- Settings, themes, overlays, recording, the command line's dispatch and the tmux
  compatibility layer.
