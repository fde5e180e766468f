/** What the invariant of ClipboardProtocol means for whole runs. */
module ClipboardGuarantees {
  import opened Options
  import opened ClipboardProtocol

  function Starts(log: seq<Event>, n: nat): nat
    decreases |log|
  {
    if log == [] then 0
    else Starts(log[..|log| - 1], n) + (if log[|log| - 1] == Started(n) then 1 else 0)
  }

  function Settlements(log: seq<Event>, n: nat): nat
    decreases |log|
  {
    if log == [] then 0
    else
      var e := log[|log| - 1];
      Settlements(log[..|log| - 1], n) + (if e.Settled? && e.serial == n then 1 else 0)
  }

  /** An unbroken ledger counts starts and settlements exactly. */
  lemma {:induction false} LedgerCounts(log: seq<Event>, n: nat)
    requires Audit(log).Ledger?
    ensures Starts(log, n) == if n < Audit(log).next then 1 else 0
    ensures Settlements(log, n) == if n < Audit(log).next && n !in Audit(log).open then 1 else 0
    ensures forall m :: m in Audit(log).open ==> m < Audit(log).next
    ensures forall i :: 0 <= i < |log| ==> log[i].Started? || log[i].Settled?
    decreases |log|
  {
    if log != [] {
      LedgerCounts(log[..|log| - 1], n);
    }
  }

  lemma {:induction false} PrefixAudits(log: seq<Event>, k: nat)
    requires k <= |log| && Audit(log).Ledger?
    ensures Audit(log[..k]).Ledger?
    decreases |log|
  {
    if k < |log| {
      var shorter := log[..|log| - 1];
      PrefixAudits(shorter, k);
      assert shorter[..k] == log[..k];
    } else {
      assert log[..k] == log;
    }
  }

  /** The log would tell: using a request that is not outstanding, or is another
      terminal's, or through a dead surface, breaks the ledger, and so does
      freeing a surface that still has a request.  Nothing else does. */
  lemma TheLogTells(w: World, t: TermId, state: Addr, outcome: Outcome)
    requires t in w.terms && LogInv(w)
    ensures Audit(Settle(w, t, state, outcome).log).Ledger? <==>
            state in w.outstanding && w.outstanding[state].owner == t && w.terms[t].surface
    ensures Audit(Free(w, t).log).Ledger? <==>
            !(w.terms[t].surface && exists a :: a in w.outstanding && w.outstanding[a].owner == t)
  {
    AuditAppend(w.log, Misuse(state));
    AuditAppend(w.log, Orphaned(t));
    if state in w.outstanding {
      AuditAppend(w.log, Settled(w.outstanding[state].serial, outcome));
    }
  }

  /** Nothing is assumed about when callbacks come: a read may finish and a dialog
      may answer at any time, and after its terminal was disposed also without
      reaching it. */
  lemma CallbacksComeAnyTime(w: World, r: ReadId, d: DialogId, d': DialogId, flag: bool)
    requires r in w.inFlight && w.inFlight[r].term in w.terms && d' !in w.dialogs && d' !in w.doomed
    requires d in w.dialogs && w.dialogs[d].term in w.terms
    ensures Enabled(w, ReadDone(r, true, flag, d')) && Enabled(w, Respond(d, flag, true))
    ensures Enabled(w, ReadDone(r, false, flag, d')) <==> w.terms[w.inFlight[r].term].disposed
    ensures Enabled(w, Respond(d, flag, false)) <==> w.terms[w.dialogs[d].term].disposed
  {
  }

  /** At no point of any run has a request been settled twice, or before it was
      started, or with a dead surface or a stale address; and no surface is
      ever freed while a request waits for it. */
  lemma SettledAtMostOnce(worlds: seq<World>, steps: seq<Step>, k: nat, n: nat)
    requires IsRun(worlds, steps) && k <= |worlds[|steps|].log|
    ensures var log := worlds[|steps|].log[..k];
            && Settlements(log, n) <= Starts(log, n) <= 1
            && (forall i :: 0 <= i < |log| ==> log[i].Started? || log[i].Settled?)
  {
    RunKeepsInv(worlds, steps, |steps|);
    PrefixAudits(worlds[|steps|].log, k);
    LedgerCounts(worlds[|steps|].log[..k], n);
  }

  /** Once no read is in flight and no dialog is open, every request that was
      answered STARTED has been settled, exactly once. */
  lemma DrainedMeansSettled(worlds: seq<World>, steps: seq<Step>, n: nat)
    requires IsRun(worlds, steps)
    requires worlds[|steps|].inFlight == map[] && worlds[|steps|].dialogs == map[]
    ensures var log := worlds[|steps|].log;
            Starts(log, n) == Settlements(log, n) == if n < worlds[|steps|].nextSerial then 1 else 0
  {
    var w := worlds[|steps|];
    RunKeepsInv(worlds, steps, |steps|);
    LedgerCounts(w.log, n);
    NothingCarriedNothingOwed(w);
  }

  lemma NothingCarriedNothingOwed(w: World)
    requires TicketsInv(w) && CarriersInv(w)
    requires w.inFlight == map[] && w.dialogs == map[]
    ensures w.outstanding == map[]
  {
    assert forall a :: a in w.outstanding ==> w.terms[w.outstanding[a].owner].clipState.Some?;
    assert forall a :: a !in w.outstanding;
  }

  function ReadsOf(w: World, t: TermId): set<ReadId> {
    set r | r in w.inFlight && w.inFlight[r].term == t
  }

  function DialogsOf(w: World, t: TermId): set<DialogId> {
    set d | d in w.dialogs && w.dialogs[d].term == t
  }

  /** Whenever a terminal has a pending request its surface is alive and exactly
      one read or dialog carries that very request; a terminal without one
      that is not disposed has neither. */
  lemma ExactlyOneCarrier(worlds: seq<World>, steps: seq<Step>, t: TermId)
    requires IsRun(worlds, steps) && t in worlds[|steps|].terms && !worlds[|steps|].terms[t].disposed
    ensures var w := worlds[|steps|];
            var x := w.terms[t];
            && |ReadsOf(w, t)| + |DialogsOf(w, t)| == (if x.clipState.Some? then 1 else 0)
            && (x.clipState.Some? ==> x.surface)
            && (forall r :: r in ReadsOf(w, t) ==> x.clipState == Some(w.inFlight[r].state))
            && (forall d :: d in DialogsOf(w, t) ==>
                  x.clipState == Some(w.dialogs[d].state) && x.dialog == Some(d) && d !in w.doomed)
  {
    RunKeepsInv(worlds, steps, |steps|);
    OneCarrier(worlds[|steps|], t);
  }

  lemma OneCarrier(w: World, t: TermId)
    requires TermsInv(w) && ReadsInv(w) && DialogsInv(w) && CarriersInv(w)
    requires t in w.terms && !w.terms[t].disposed
    ensures |ReadsOf(w, t)| + |DialogsOf(w, t)| == if w.terms[t].clipState.Some? then 1 else 0
  {
    var x := w.terms[t];
    if x.clipState.None? {
      assert ReadsOf(w, t) == {} && DialogsOf(w, t) == {};
    } else if x.dialog.Some? {
      assert ReadsOf(w, t) == {};
      assert DialogsOf(w, t) == {x.dialog.value};
    } else {
      var r :| r in w.inFlight && w.inFlight[r].term == t;
      assert ReadsOf(w, t) == {r};
      assert DialogsOf(w, t) == {};
    }
  }

  /** Whether a callback for `term` and `state` would go ahead. */
  predicate Matches(w: World, term: TermId, state: Addr) {
    term in w.terms && IsPending(w.terms[term], state)
  }

  predicate IsCurrent(w: World, term: TermId, state: Addr, serial: nat) {
    state in w.outstanding && w.outstanding[state] == Ticket(serial, term)
  }

  /** A callback whose address compares equal to a pending request was made for
      that request, even though Ghostty reuses addresses. */
  lemma StaleCallbacksNeverMatch(worlds: seq<World>, steps: seq<Step>)
    requires IsRun(worlds, steps)
    ensures var w := worlds[|steps|];
            && (forall r :: r in w.inFlight && Matches(w, w.inFlight[r].term, w.inFlight[r].state) ==>
                  IsCurrent(w, w.inFlight[r].term, w.inFlight[r].state, w.inFlight[r].serial))
            && (forall d :: d in w.dialogs && Matches(w, w.dialogs[d].term, w.dialogs[d].state) ==>
                  IsCurrent(w, w.dialogs[d].term, w.dialogs[d].state, w.dialogs[d].serial))
  {
    RunKeepsInv(worlds, steps, |steps|);
    var w := worlds[|steps|];
    forall r | r in w.inFlight && Matches(w, w.inFlight[r].term, w.inFlight[r].state)
      ensures IsCurrent(w, w.inFlight[r].term, w.inFlight[r].state, w.inFlight[r].serial)
    {
      assert TermInv(w.terms[w.inFlight[r].term]);
    }
    forall d | d in w.dialogs && Matches(w, w.dialogs[d].term, w.dialogs[d].state)
      ensures IsCurrent(w, w.dialogs[d].term, w.dialogs[d].state, w.dialogs[d].serial)
    {
      assert TermInv(w.terms[w.dialogs[d].term]);
    }
  }

  /** The terminal a step is about. */
  function Subject(w: World, s: Step): Option<TermId>
    requires Enabled(w, s)
  {
    match s
    case Create(t) => Some(t)
    case Realize(t) => Some(t)
    case Reparent(t, _) => Some(t)
    case Request(t, _, _, _, _, _) => Some(t)
    case ReadDone(r, _, _, _) => Some(w.inFlight[r].term)
    case Respond(d, _, _) => Some(w.dialogs[d].term)
    case DestroyDialog(_) => None
    case Dispose(t) => Some(t)
  }

  /** What one step adds to the log: nothing, one settlement of its subject's
      pending request, a start, or a start that is denied on the spot. */
  datatype Effect = Quiet | Opens | Refuses | Closes(outcome: Outcome)

  /** Steps of one terminal leave every other terminal alone.  A step closes a
      request only in these cases: the read was consumed, the user answered,
      or the terminal was disposed; only an explicit consent confirms a
      completion, and a closing terminal always denies. */
  lemma StepEffect(worlds: seq<World>, steps: seq<Step>, s: Step) returns (effect: Effect)
    requires IsRun(worlds, steps) && Enabled(worlds[|steps|], s)
    ensures var w := worlds[|steps|];
            var w' := Take(w, s);
            && (forall u :: u in w.terms && Subject(w, s) != Some(u) ==> u in w'.terms && w'.terms[u] == w.terms[u])
            && match effect
               case Quiet => w'.log == w.log && w'.outstanding == w.outstanding
               case Opens => w'.log == w.log + [Started(w.nextSerial)] && s.Request?
                             && w'.outstanding == w.outstanding[s.state := Ticket(w.nextSerial, s.t)]
               case Refuses => w'.log == w.log + [Started(w.nextSerial), Settled(w.nextSerial, Denied)]
                               && s.Request? && w'.outstanding == w.outstanding
               case Closes(o) =>
                 && Subject(w, s).Some? && Subject(w, s).value in w.terms
                 && w.terms[Subject(w, s).value].clipState.Some?
                 && w.terms[Subject(w, s).value].clipState.value in w.outstanding
                 && var a := w.terms[Subject(w, s).value].clipState.value;
                 && w'.log == w.log + [Settled(w.outstanding[a].serial, o)]
                 && w'.outstanding == w.outstanding - {a}
                 && (o == Completed(true) ==> s.Respond? && s.allowed)
                 && (o == Completed(false) ==> s.ReadDone? && !s.needsConfirm)
                 && (s.Dispose? ==> o == Denied)
                 && (s.Respond? && !s.allowed ==> o == Denied)
  {
    var w := worlds[|steps|];
    RunKeepsInv(worlds, steps, |steps|);
    if s.Request? {
      effect := RequestEffect(w, s);
    } else if s.ReadDone? {
      effect := ReadDoneEffect(w, s);
    } else if s.Respond? {
      effect := RespondEffect(w, s);
      RespondLeavesOthers(w, s);
    } else if s.Dispose? {
      effect := DisposeEffect(w, s);
    } else {
      effect := Quiet;
    }
  }

  lemma RequestEffect(w: World, s: Step) returns (effect: Effect)
    requires Inv(w) && s.Request? && Enabled(w, s)
    ensures forall u :: u in w.terms && u != s.t ==> u in Take(w, s).terms && Take(w, s).terms[u] == w.terms[u]
    ensures match effect
            case Quiet => Take(w, s) == w
            case Opens => Take(w, s).log == w.log + [Started(w.nextSerial)]
                          && Take(w, s).outstanding == w.outstanding[s.state := Ticket(w.nextSerial, s.t)]
            case Refuses => Take(w, s).log == w.log + [Started(w.nextSerial), Settled(w.nextSerial, Denied)]
                            && Take(w, s).outstanding == w.outstanding
            case Closes(_) => false
  {
    if RequestAnswer(w, s.t, s.wantsText, s.listAvailable, s.textReady) != StartedRead {
      effect := Quiet;
    } else if w.terms[s.t].clipState.None? {
      effect := Opens;
    } else {
      SecondRequestIsDeniedAtOnce(w, s);
      effect := Refuses;
    }
  }

  lemma ReadDoneEffect(w: World, s: Step) returns (effect: Effect)
    requires Inv(w) && s.ReadDone? && Enabled(w, s)
    ensures var t := w.inFlight[s.r].term;
            && (forall u :: u in w.terms && u != t ==> u in Take(w, s).terms && Take(w, s).terms[u] == w.terms[u])
            && match effect
               case Quiet => Take(w, s).log == w.log && Take(w, s).outstanding == w.outstanding
               case Closes(o) =>
                 && t in w.terms && w.terms[t].clipState.Some? && w.terms[t].clipState.value in w.outstanding
                 && var a := w.terms[t].clipState.value;
                 && Take(w, s).log == w.log + [Settled(w.outstanding[a].serial, o)]
                 && Take(w, s).outstanding == w.outstanding - {a}
                 && o == Completed(false) && !s.needsConfirm
               case _ => false
  {
    var t := w.inFlight[s.r].term;
    if w.terms[t].disposed || s.needsConfirm {
      effect := Quiet;
    } else {
      ReadDoneCloses(w, s);
      effect := Closes(Completed(false));
    }
  }

  lemma RespondLeavesOthers(w: World, s: Step)
    requires s.Respond? && Enabled(w, s)
    ensures forall u :: u in w.terms && u != w.dialogs[s.d].term ==>
              u in Take(w, s).terms && Take(w, s).terms[u] == w.terms[u]
  {
  }

  lemma RespondEffect(w: World, s: Step) returns (effect: Effect)
    requires Inv(w) && s.Respond? && Enabled(w, s)
    ensures var t := w.dialogs[s.d].term;
            match effect
               case Quiet => Take(w, s).log == w.log && Take(w, s).outstanding == w.outstanding
               case Closes(o) =>
                 && t in w.terms && w.terms[t].clipState.Some? && w.terms[t].clipState.value in w.outstanding
                 && var a := w.terms[t].clipState.value;
                 && Take(w, s).log == w.log + [Settled(w.outstanding[a].serial, o)]
                 && Take(w, s).outstanding == w.outstanding - {a}
                 && o == (if s.allowed then Completed(true) else Denied)
               case _ => false
  {
    var t := w.dialogs[s.d].term;
    if w.terms[t].disposed {
      effect := Quiet;
    } else {
      RespondCloses(w, s);
      effect := Closes(Answer(s.allowed));
    }
  }

  lemma DisposeEffect(w: World, s: Step) returns (effect: Effect)
    requires Inv(w) && s.Dispose? && Enabled(w, s)
    ensures forall u :: u in w.terms && u != s.t ==> u in Take(w, s).terms && Take(w, s).terms[u] == w.terms[u]
    ensures match effect
            case Quiet => Take(w, s).log == w.log && Take(w, s).outstanding == w.outstanding
            case Closes(o) =>
              && w.terms[s.t].clipState.Some? && w.terms[s.t].clipState.value in w.outstanding
              && var a := w.terms[s.t].clipState.value;
              && Take(w, s).log == w.log + [Settled(w.outstanding[a].serial, o)]
              && Take(w, s).outstanding == w.outstanding - {a}
              && o == Denied
            case _ => false
  {
    AbortSettles(w, s.t);
    DisposeAfterAbort(w, s.t);
    if w.terms[s.t].clipState.Some? {
      SettleIsSafe(w, s.t, Denied);
      effect := Closes(Denied);
    } else {
      effect := Quiet;
    }
  }

  /** After a terminal is disposed each of its reads has been cancelled and each
      of its dialogs is queued for destruction. */
  lemma DisposedReadsAreCancelled(worlds: seq<World>, steps: seq<Step>, t: TermId)
    requires IsRun(worlds, steps) && t in worlds[|steps|].terms && worlds[|steps|].terms[t].disposed
    ensures var w := worlds[|steps|];
            && (forall r :: r in w.inFlight && w.inFlight[r].term == t ==>
                  w.inFlight[r].cancellable in w.terms[t].cancelled)
            && (forall d :: d in w.dialogs && w.dialogs[d].term == t ==> d in w.doomed)
            && !w.terms[t].surface && w.terms[t].clipState.None?
  {
    RunKeepsInv(worlds, steps, |steps|);
    assert TermInv(worlds[|steps|].terms[t]);
  }

  /** What a clipboard request needs to be accepted. */
  predicate Acceptable(x: Term, s: Step)
    requires s.Request?
  {
    x.surface && x.parented && s.textReady && (s.wantsText || s.listAvailable)
  }

  /** A request is answered STARTED exactly when the terminal is live, text or a
      list was asked for that can be served, and the text is there; otherwise
      nothing at all changes.  An accepted request becomes the pending one,
      carried by one new read, unless another is pending already: then it is
      denied, and everything else stays. */
  lemma RequestIsAcceptedIff(w: World, s: Step)
    requires s.Request? && Enabled(w, s)
    ensures var (x, w') := (w.terms[s.t], Take(w, s));
            && (Acceptable(x, s) <==> w.log + [Started(w.nextSerial)] <= w'.log)
            && (!Acceptable(x, s) ==> w' == w)
            && (Acceptable(x, s) && x.clipState.None? ==>
                  && w'.log == w.log + [Started(w.nextSerial)]
                  && w'.nextSerial == w.nextSerial + 1
                  && w'.outstanding == w.outstanding[s.state := Ticket(w.nextSerial, s.t)]
                  && w'.inFlight == w.inFlight[s.r := ReadCtx(s.t, s.state, x.nextCancellable, w.nextSerial)]
                  && w'.terms == w.terms[s.t := x.(clipState := Some(s.state), dialog := None,
                                                   cancellable := Some(x.nextCancellable),
                                                   nextCancellable := x.nextCancellable + 1)]
                  && w'.dialogs == w.dialogs && w'.doomed == w.doomed)
            && (Acceptable(x, s) && x.clipState.Some? ==>
                  w' == w.(log := w.log + [Started(w.nextSerial), Settled(w.nextSerial, Denied)],
                           nextSerial := w.nextSerial + 1))
  {
    var x := w.terms[s.t];
    if Acceptable(x, s) && x.clipState.Some? {
      assert w.outstanding[s.state := Ticket(w.nextSerial, s.t)] - {s.state} == w.outstanding;
      assert w.log + [Started(w.nextSerial)] + [Settled(w.nextSerial, Denied)]
          == w.log + [Started(w.nextSerial), Settled(w.nextSerial, Denied)];
    }
  }
}
