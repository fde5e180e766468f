/**
  The clipboard functions of GhosttyTerminal and the clipboard callbacks of the
  application, written as they are: functions that update the terminal's
  fields in place.  Each callback is proved to take exactly the step that
  ClipboardProtocol describes, and so to keep its invariant.
 */
module ClipboardCallbacks {
  import opened Options
  import opened ClipboardProtocol

  class GhosttyTerminal {
    var surface: bool
    var parented: bool
    var disposed: bool
    var clipState: Option<Addr>
    var clipCancellable: Option<nat>
    var clipDialog: Option<DialogId>
    var cancelled: set<nat>
    var nextCancellable: nat

    constructor ()
      ensures Val() == Term(false, false, false, None, None, None, {}, 0)
    {
      surface, parented, disposed := false, false, false;
      clipState, clipCancellable, clipDialog := None, None, None;
      cancelled, nextCancellable := {}, 0;
    }

    ghost function Val(): Term
      reads this
    {
      Term(surface, parented, disposed, clipState, clipCancellable, clipDialog, cancelled, nextCancellable)
    }

    /** One outstanding request at a time. */
    method ClipboardBegin(state: Addr) returns (ok: bool, cancellable: Option<nat>)
      modifies this
      ensures ok == old(clipState).None?
      ensures Val() == if ok then Begin(old(Val()), state) else old(Val())
      ensures cancellable == if ok then clipCancellable else None
    {
      if clipState.Some? {
        return false, None;
      }
      clipState := Some(state);
      clipDialog := None;
      clipCancellable := Some(nextCancellable);
      nextCancellable := nextCancellable + 1;
      return true, clipCancellable;
    }

    method ClipboardIsPending(state: Addr) returns (pending: bool)
      ensures pending == IsPending(Val(), state)
    {
      pending := clipState.Some? && clipState.value == state;
    }

    method ClipboardEnd()
      modifies this
      ensures Val() == End(old(Val()))
    {
      clipState := None;
      clipDialog := None;
      clipCancellable := None;
    }

    method ClipboardSetDialog(dialog: DialogId)
      modifies this`clipDialog
      ensures clipDialog == Some(dialog)
    {
      clipDialog := Some(dialog);
    }

    /** The read must not be delivered any more. */
    method CancelRead()
      modifies this`cancelled
      ensures Val() == Cancel(old(Val()))
    {
      if clipCancellable.Some? {
        cancelled := cancelled + {clipCancellable.value};
      }
    }

    method ClipboardHasDialog() returns (has: bool)
      ensures has == clipDialog.Some?
    {
      has := clipDialog.Some?;
    }
  }

  /** The terminals, the callbacks that GDK and GTK still hold, and Ghostty's
      own table of the requests it waits for. */
  class App {
    var terminals: map<TermId, GhosttyTerminal>
    var inFlight: map<ReadId, ReadCtx>
    var dialogs: map<DialogId, ConfirmCtx>
    var doomed: set<DialogId>
    var outstanding: map<Addr, Ticket>
    var log: seq<Event>
    var nextSerial: nat

    ghost predicate Valid()
      reads this
    {
      forall t, u :: t in terminals && u in terminals && t != u ==> terminals[t] != terminals[u]
    }

    ghost function TermVals(): map<TermId, Term>
      reads this, terminals.Values
    {
      map t | t in terminals :: terminals[t].Val()
    }

    ghost function ToWorld(): World
      reads this, terminals.Values
    {
      World(TermVals(), inFlight, dialogs, doomed, outstanding, log, nextSerial)
    }

    constructor ()
      ensures Valid() && ToWorld() == EmptyWorld
    {
      terminals, inFlight, dialogs, doomed := map[], map[], map[], {};
      outstanding, log, nextSerial := map[], [], 0;
    }

    /** When only one terminal's fields changed, only its entry did. */
    twostate lemma OnlyTermChanged(t: TermId)
      requires Valid() && t in terminals && terminals == old(terminals)
      requires forall u :: u in terminals && terminals[u] != terminals[t] ==> unchanged(terminals[u])
      ensures TermVals() == old(TermVals())[t := terminals[t].Val()]
    {
    }

    // ---- Ghostty ----

    method SurfaceSettles(t: TermId, state: Addr, outcome: Outcome)
      requires t in terminals
      modifies this`outstanding, this`log
      ensures ToWorld() == Settle(old(ToWorld()), t, state, outcome)
    {
      if state in outstanding && outstanding[state].owner == t && terminals[t].surface {
        log := log + [Settled(outstanding[state].serial, outcome)];
        outstanding := outstanding - {state};
      } else {
        log := log + [Misuse(state)];
      }
      assert TermVals() == old(TermVals());
    }

    predicate Abandoned(t: TermId)
      reads this`outstanding
    {
      exists a :: a in outstanding && outstanding[a].owner == t
    }

    method SurfaceFree(t: TermId)
      requires t in terminals
      modifies this`log, terminals[t]
      ensures terminals[t].Val() == old(terminals[t].Val()).(surface := false)
      ensures log == if Abandoned(t) then old(log) + [Orphaned(t)] else old(log)
    {
      terminals[t].surface := false;
      if Abandoned(t) {
        log := log + [Orphaned(t)];
      }
    }

    /** An unconfirmed completion.  When Ghostty wants to ask the user first, it
        calls back from inside this call and keeps the request. */
    method CompleteUnconfirmedText(t: TermId, state: Addr, needsConfirm: bool, d: DialogId)
      requires t in terminals && terminals[t].clipState == Some(state)
      requires Valid()
      modifies this`outstanding, this`log, this`dialogs, terminals[t]
      ensures ToWorld() == CompleteUnconfirmed(old(ToWorld()), t, state, needsConfirm, d)
    {
      if needsConfirm && state in outstanding && outstanding[state].owner == t && terminals[t].surface {
        ConfirmReadClipboardCb(t, state, d);
      } else {
        SurfaceSettles(t, state, Completed(false));
      }
    }

    // ---- the application ----

    method ConfirmReadClipboardCb(t: TermId, state: Addr, d: DialogId)
      requires Valid() && t in terminals && state in outstanding
      modifies this`dialogs, terminals[t]
      ensures ToWorld() == ConfirmRead(old(ToWorld()), t, state, d)
    {
      var pending := terminals[t].ClipboardIsPending(state);
      if !pending {
        return;
      }
      dialogs := dialogs[d := ConfirmCtx(t, state, outstanding[state].serial)];
      terminals[t].ClipboardSetDialog(d);
      OnlyTermChanged(t);
    }

    method ReadClipboardCb(t: TermId, state: Addr, mimeTypes: seq<string>, listAvailable: bool,
                           textReady: bool, r: ReadId)
      returns (result: ReadResult)
      requires Valid()
      requires t in terminals && state !in outstanding && r !in inFlight
      modifies this`inFlight, this`outstanding, this`log, this`nextSerial, terminals[t]
      ensures Valid()
      ensures var live := old(terminals[t].surface) && old(terminals[t].parented);
              var servable := "text/plain" in mimeTypes || listAvailable;
              && (result == StartedRead <==> live && servable && textReady)
              && (result == Unsupported <==> live && !servable)
              && (result == Unavailable <==> !live || (servable && !textReady))
      ensures ToWorld() == TakeRequest(old(ToWorld()), t, state, "text/plain" in mimeTypes, listAvailable, textReady, r)
    {
      var term := terminals[t];
      if !(term.surface && term.parented) {
        return Unavailable;
      }
      var wantsText := WantsText(mimeTypes);
      if !wantsText && !listAvailable {
        return Unsupported;
      }
      if !textReady {
        return Unavailable;
      }
      AcceptRequest(t, state, r);
      return StartedRead;
    }

    /** From here on Ghostty is promised a settlement. */
    method AcceptRequest(t: TermId, state: Addr, r: ReadId)
      requires Valid() && t in terminals && state !in outstanding && r !in inFlight
      modifies this`inFlight, this`outstanding, this`log, this`nextSerial, terminals[t]
      ensures ToWorld() == Accept(old(ToWorld()), t, state, r)
    {
      var serial := nextSerial;
      Promise(t, state);
      var ok, cancellable := BeginRequest(t, state);
      if !ok {
        SurfaceSettles(t, state, Denied);
      } else {
        StartRead(r, ReadCtx(t, state, cancellable.value, serial));
      }
    }

    method StartRead(r: ReadId, ctx: ReadCtx)
      modifies this`inFlight
      ensures ToWorld() == old(ToWorld()).(inFlight := old(inFlight)[r := ctx])
    {
      inFlight := inFlight[r := ctx];
      assert TermVals() == old(TermVals());
    }

    method BeginRequest(t: TermId, state: Addr) returns (ok: bool, cancellable: Option<nat>)
      requires Valid() && t in terminals
      modifies terminals[t]
      ensures ok == old(terminals[t].clipState).None?
      ensures !ok ==> ToWorld() == old(ToWorld())
      ensures ok ==> cancellable == Some(old(terminals[t].nextCancellable))
      ensures ok ==> ToWorld() == old(ToWorld()).(terms := old(TermVals())[t := Begin(old(terminals[t].Val()), state)])
    {
      ok, cancellable := terminals[t].ClipboardBegin(state);
      OnlyTermChanged(t);
    }

    method EndRequest(t: TermId)
      requires Valid() && t in terminals
      modifies terminals[t]
      ensures ToWorld() == old(ToWorld()).(terms := old(TermVals())[t := End(old(terminals[t].Val()))])
    {
      terminals[t].ClipboardEnd();
      OnlyTermChanged(t);
    }

    method Promise(t: TermId, state: Addr)
      modifies this`outstanding, this`log, this`nextSerial
      ensures ToWorld() == Promised(old(ToWorld()), t, state)
    {
      outstanding := outstanding[state := Ticket(nextSerial, t)];
      log := log + [Started(nextSerial)];
      nextSerial := nextSerial + 1;
      assert TermVals() == old(TermVals());
    }

    method EndRead(r: ReadId)
      modifies this`inFlight
      ensures ToWorld() == old(ToWorld()).(inFlight := old(inFlight) - {r})
    {
      inFlight := inFlight - {r};
      assert TermVals() == old(TermVals());
    }

    method CloseDialog(d: DialogId)
      modifies this`dialogs
      ensures ToWorld() == old(ToWorld()).(dialogs := old(dialogs) - {d})
    {
      dialogs := dialogs - {d};
      assert TermVals() == old(TermVals());
    }

    method WantsText(mimeTypes: seq<string>) returns (wants: bool)
      ensures wants == ("text/plain" in mimeTypes)
    {
      wants := false;
      for i := 0 to |mimeTypes|
        invariant wants == ("text/plain" in mimeTypes[..i])
      {
        if mimeTypes[i] == "text/plain" {
          return true;
        }
      }
    }

    method ClipboardReadDoneCb(r: ReadId, reachable: bool, needsConfirm: bool, d: DialogId)
      requires Valid() && r in inFlight && inFlight[r].term in terminals
      modifies this`inFlight, this`dialogs, this`outstanding, this`log, terminals[inFlight[r].term]
      ensures Valid()
      ensures ToWorld() == TakeReadDone(old(ToWorld()), r, reachable, needsConfirm, d)
    {
      var ctx := inFlight[r];
      EndRead(r);
      var pending := terminals[ctx.term].ClipboardIsPending(ctx.state);
      if reachable && pending {
        DeliverText(ctx.term, ctx.state, needsConfirm, d);
      }
    }

    method DeliverText(t: TermId, state: Addr, needsConfirm: bool, d: DialogId)
      requires Valid() && t in terminals && terminals[t].clipState == Some(state)
      modifies this`dialogs, this`outstanding, this`log, terminals[t]
      ensures ToWorld() == Deliver(old(ToWorld()), t, state, needsConfirm, d)
    {
      if terminals[t].surface {
        CompleteUnconfirmedText(t, state, needsConfirm, d);
        var hasDialog := terminals[t].ClipboardHasDialog();
        if !hasDialog {
          EndRequest(t);
        }
      } else {
        EndRequest(t);
      }
    }

    method ClipboardConfirmResponseCb(d: DialogId, response: string, reachable: bool)
      requires Valid() && d in dialogs && dialogs[d].term in terminals
      modifies this`dialogs, this`outstanding, this`log, terminals[dialogs[d].term]
      ensures Valid()
      ensures ToWorld() == TakeRespond(old(ToWorld()), d, response == "allow", reachable)
    {
      var ctx := dialogs[d];
      CloseDialog(d);
      var pending := terminals[ctx.term].ClipboardIsPending(ctx.state);
      if reachable && pending {
        ConcludeConfirm(ctx.term, ctx.state, Answer(response == "allow"));
      }
    }

    method ConcludeConfirm(t: TermId, state: Addr, outcome: Outcome)
      requires Valid() && t in terminals
      modifies this`outstanding, this`log, terminals[t]
      ensures ToWorld() == Conclude(old(ToWorld()), t, state, outcome)
    {
      if terminals[t].surface {
        SurfaceSettles(t, state, outcome);
      }
      EndRequest(t);
    }

    /** Comes first on disposal: a request is denied while there still is a surface
        to deny it through. */
    method ClipboardAbort(t: TermId)
      requires Valid() && t in terminals
      modifies this`outstanding, this`log, this`doomed, terminals[t]
      ensures ToWorld() == Abort(old(ToWorld()), t)
    {
      var term := terminals[t];
      term.CancelRead();
      if term.clipState.Some? && term.surface {
        SurfaceSettles(t, term.clipState.value, Denied);
      }
      if term.clipDialog.Some? {
        doomed := doomed + {term.clipDialog.value};
      }
      term.ClipboardEnd();
      OnlyTermChanged(t);
    }

    method Dispose(t: TermId)
      requires Valid() && t in terminals
      modifies this`outstanding, this`log, this`doomed, terminals[t]
      ensures Valid()
      ensures ToWorld() == TakeDispose(old(ToWorld()), t)
    {
      ClipboardAbort(t);
      FreeSurface(t);
    }

    method FreeSurface(t: TermId)
      requires Valid() && t in terminals
      modifies this`log, terminals[t]
      ensures ToWorld() == Free(old(ToWorld()), t)
    {
      var term := terminals[t];
      if term.surface {
        SurfaceFree(t);
      }
      term.parented := false;
      term.disposed := true;
      OnlyTermChanged(t);
    }
  }
}
