/**
  The clipboard request protocol between Ghostty and the application
  (src/gtk/main.c:680-926, src/gtk/ghostty_terminal.c:1467-1549), as steps
  over a world that holds any number of terminals.

  Ghostty hands over the address of a request.  Answering STARTED promises
  that the request is settled exactly once.  Addresses are reused as soon as a
  request has been settled, so every accepted request also gets a serial
  number; the program never sees it, the theorems speak about it.
 */
module ClipboardProtocol {
  import opened Options

  type Addr = nat
  type TermId = nat
  type ReadId = nat
  type DialogId = nat

  /** The clipboard part of one GhosttyTerminal. */
  datatype Term = Term(
    surface: bool,
    parented: bool,
    disposed: bool,
    clipState: Option<Addr>,
    cancellable: Option<nat>,
    dialog: Option<DialogId>,
    cancelled: set<nat>,      // the cancellables this terminal has cancelled
    nextCancellable: nat)

  /** What an in-flight GDK read carries (ClipboardReadCtx). */
  datatype ReadCtx = ReadCtx(term: TermId, state: Addr, cancellable: nat, serial: nat)

  /** What an open confirmation dialog carries (ClipboardConfirmCtx). */
  datatype ConfirmCtx = ConfirmCtx(term: TermId, state: Addr, serial: nat)

  /** Ghostty's own record of a request it still waits for. */
  datatype Ticket = Ticket(serial: nat, owner: TermId)

  datatype Outcome = Completed(confirmed: bool) | Denied

  datatype Event =
    | Started(serial: nat)
    | Settled(serial: nat, outcome: Outcome)
    | Misuse(state: Addr)       // a settled request, a foreign one, or a dead surface was used
    | Orphaned(owner: TermId)   // a surface was freed while it still owned a request

  datatype World = World(
    terms: map<TermId, Term>,
    inFlight: map<ReadId, ReadCtx>,
    dialogs: map<DialogId, ConfirmCtx>,
    doomed: set<DialogId>,      // dialogs whose destruction is queued on an idle
    outstanding: map<Addr, Ticket>,
    log: seq<Event>,
    nextSerial: nat)

  datatype ReadResult = Unavailable | Unsupported | StartedRead

  const EmptyWorld := World(map[], map[], map[], {}, map[], [], 0)

  predicate IsPending(x: Term, state: Addr) {
    x.clipState == Some(state)
  }

  predicate IsLive(x: Term) {
    x.surface && x.parented
  }

  // ---- Ghostty's side ----

  /** Completing or denying a request: it must be outstanding, belong to the
      terminal whose surface is used, and that surface must be alive. */
  function Settle(w: World, t: TermId, state: Addr, outcome: Outcome): World
    requires t in w.terms
  {
    if state in w.outstanding && w.outstanding[state].owner == t && w.terms[t].surface then
      w.(outstanding := w.outstanding - {state},
         log := w.log + [Settled(w.outstanding[state].serial, outcome)])
    else
      w.(log := w.log + [Misuse(state)])
  }

  /** An unconfirmed completion: Ghostty consumes the request, or it keeps it
      and calls the confirm callback once, from inside the completion. */
  function CompleteUnconfirmed(w: World, t: TermId, state: Addr, needsConfirm: bool, d: DialogId): World
    requires t in w.terms
  {
    if needsConfirm && state in w.outstanding && w.outstanding[state].owner == t && w.terms[t].surface then
      ConfirmRead(w, t, state, d)
    else
      Settle(w, t, state, Completed(false))
  }

  /** Freeing a surface abandons whatever it still waits for. */
  ghost predicate Abandons(w: World, t: TermId) {
    exists a :: a in w.outstanding && w.outstanding[a].owner == t
  }

  // ---- the application's callbacks ----

  function Begin(x: Term, state: Addr): Term {
    x.(clipState := Some(state), dialog := None,
       cancellable := Some(x.nextCancellable), nextCancellable := x.nextCancellable + 1)
  }

  function End(x: Term): Term {
    x.(clipState := None, dialog := None, cancellable := None)
  }

  function Cancel(x: Term): Term {
    if x.cancellable.Some? then x.(cancelled := x.cancelled + {x.cancellable.value}) else x
  }

  function ConfirmRead(w: World, t: TermId, state: Addr, d: DialogId): World
    requires t in w.terms && state in w.outstanding
  {
    if !IsPending(w.terms[t], state) then w
    else
      w.(dialogs := w.dialogs[d := ConfirmCtx(t, state, w.outstanding[state].serial)],
         terms := w.terms[t := w.terms[t].(dialog := Some(d))])
  }

  function RequestAnswer(w: World, t: TermId, wantsText: bool, listAvailable: bool, textReady: bool): ReadResult
    requires t in w.terms
  {
    if !IsLive(w.terms[t]) then Unavailable
    else if !wantsText && !listAvailable then Unsupported
    else if !textReady then Unavailable
    else StartedRead
  }

  function Promised(w: World, t: TermId, state: Addr): World {
    w.(outstanding := w.outstanding[state := Ticket(w.nextSerial, t)],
       log := w.log + [Started(w.nextSerial)],
       nextSerial := w.nextSerial + 1)
  }

  /** Ghostty is promised a settlement; a terminal that already has a request
      settles the new one at once. */
  function Accept(w: World, t: TermId, state: Addr, r: ReadId): World
    requires t in w.terms
  {
    var x := w.terms[t];
    var promised := Promised(w, t, state);
    if x.clipState.Some? then
      Settle(promised, t, state, Denied)
    else
      promised.(terms := w.terms[t := Begin(x, state)],
                inFlight := w.inFlight[r := ReadCtx(t, state, x.nextCancellable, w.nextSerial)])
  }

  function TakeRequest(w: World, t: TermId, state: Addr, wantsText: bool, listAvailable: bool,
                       textReady: bool, r: ReadId): World
    requires t in w.terms
  {
    if RequestAnswer(w, t, wantsText, listAvailable, textReady) == StartedRead then Accept(w, t, state, r) else w
  }

  /** The text has arrived for a request that is still pending. */
  function Deliver(w: World, t: TermId, state: Addr, needsConfirm: bool, d: DialogId): World
    requires t in w.terms
  {
    var w' := if w.terms[t].surface then CompleteUnconfirmed(w, t, state, needsConfirm, d) else w;
    if w.terms[t].surface && w'.terms[t].dialog.Some? then w'
    else w'.(terms := w'.terms[t := End(w'.terms[t])])
  }

  function TakeReadDone(w: World, r: ReadId, reachable: bool, needsConfirm: bool, d: DialogId): World
    requires r in w.inFlight
  {
    var ctx := w.inFlight[r];
    var w1 := w.(inFlight := w.inFlight - {r});
    if reachable && ctx.term in w.terms && IsPending(w.terms[ctx.term], ctx.state)
    then Deliver(w1, ctx.term, ctx.state, needsConfirm, d)
    else w1
  }

  function Answer(allowed: bool): Outcome {
    if allowed then Completed(true) else Denied
  }

  function TakeRespond(w: World, d: DialogId, allowed: bool, reachable: bool): World
    requires d in w.dialogs
  {
    var ctx := w.dialogs[d];
    var w1 := w.(dialogs := w.dialogs - {d});
    if reachable && ctx.term in w.terms && IsPending(w.terms[ctx.term], ctx.state)
    then Conclude(w1, ctx.term, ctx.state, Answer(allowed))
    else w1
  }

  /** The user has answered for a request that is still pending. */
  function Conclude(w: World, t: TermId, state: Addr, outcome: Outcome): World
    requires t in w.terms
  {
    var w' := if w.terms[t].surface then Settle(w, t, state, outcome) else w;
    w'.(terms := w'.terms[t := End(w'.terms[t])])
  }

  function Abort(w: World, t: TermId): World
    requires t in w.terms
  {
    var x := w.terms[t];
    var w1 := if x.clipState.Some? && x.surface then Settle(w, t, x.clipState.value, Denied) else w;
    w1.(terms := w.terms[t := End(Cancel(x))],
        doomed := if x.dialog.Some? then w.doomed + {x.dialog.value} else w.doomed)
  }

  ghost function TakeDispose(w: World, t: TermId): World
    requires t in w.terms
  {
    Free(Abort(w, t), t)
  }

  ghost function Free(w: World, t: TermId): World
    requires t in w.terms
  {
    w.(terms := w.terms[t := w.terms[t].(surface := false, parented := false, disposed := true)],
       log := if w.terms[t].surface && Abandons(w, t) then w.log + [Orphaned(t)] else w.log)
  }

  // ---- runs ----

  datatype Step =
    | Create(t: TermId)
    | Realize(t: TermId)
    | Reparent(t: TermId, parented: bool)
    | Request(t: TermId, state: Addr, wantsText: bool, listAvailable: bool, textReady: bool, r: ReadId)
    | ReadDone(r: ReadId, reachable: bool, needsConfirm: bool, d: DialogId)
    | Respond(d: DialogId, allowed: bool, reachable: bool)
    | DestroyDialog(d: DialogId)
    | Dispose(t: TermId)

  /** What the environment guarantees: new objects have addresses that nothing
      alive uses, and a weak reference is lost only after its terminal has
      been disposed. */
  predicate Enabled(w: World, s: Step) {
    match s
    case Create(t) => t !in w.terms
    case Realize(t) => t in w.terms && !w.terms[t].disposed
    case Reparent(t, _) => t in w.terms && !w.terms[t].disposed
    case Request(t, state, _, _, _, r) => t in w.terms && state !in w.outstanding && r !in w.inFlight
    case ReadDone(r, reachable, _, d) =>
      && r in w.inFlight && d !in w.dialogs && d !in w.doomed
      && (reachable || (w.inFlight[r].term in w.terms ==> w.terms[w.inFlight[r].term].disposed))
    case Respond(d, _, reachable) =>
      && d in w.dialogs
      && (reachable || (w.dialogs[d].term in w.terms ==> w.terms[w.dialogs[d].term].disposed))
    case DestroyDialog(d) => d in w.doomed
    case Dispose(t) => t in w.terms
  }

  ghost function Take(w: World, s: Step): World
    requires Enabled(w, s)
  {
    match s
    case Create(t) => w.(terms := w.terms[t := Term(false, false, false, None, None, None, {}, 0)])
    case Realize(t) => w.(terms := w.terms[t := w.terms[t].(surface := true)])
    case Reparent(t, parented) => w.(terms := w.terms[t := w.terms[t].(parented := parented)])
    case Request(t, state, wantsText, listAvailable, textReady, r) =>
      TakeRequest(w, t, state, wantsText, listAvailable, textReady, r)
    case ReadDone(r, reachable, needsConfirm, d) => TakeReadDone(w, r, reachable, needsConfirm, d)
    case Respond(d, allowed, reachable) => TakeRespond(w, d, allowed, reachable)
    case DestroyDialog(d) => w.(dialogs := w.dialogs - {d}, doomed := w.doomed - {d})
    case Dispose(t) => TakeDispose(w, t)
  }

  ghost predicate Leads(w: World, s: Step, w': World) {
    Enabled(w, s) && w' == Take(w, s)
  }

  /** A run: the worlds it passes through, starting with no terminals. */
  ghost predicate IsRun(worlds: seq<World>, steps: seq<Step>) {
    && |worlds| == |steps| + 1
    && worlds[0] == EmptyWorld
    && forall i :: 0 <= i < |steps| ==> Leads(worlds[i], steps[i], worlds[i + 1])
  }

  // ---- the invariant ----

  predicate TermInv(x: Term) {
    && (x.disposed ==> !x.surface && x.clipState.None?)
    && (x.clipState.Some? ==> x.surface)
    && (x.clipState.None? ==> x.dialog.None?)
    && (x.clipState.Some? <==> x.cancellable.Some?)
  }

  ghost predicate TermsInv(w: World) {
    forall t :: t in w.terms ==> TermInv(w.terms[t])
  }

  /** A terminal's pending request is exactly the one Ghostty waits for. */
  ghost predicate TicketsInv(w: World) {
    && (forall a :: a in w.outstanding ==>
          && w.outstanding[a].owner in w.terms
          && w.terms[w.outstanding[a].owner].clipState == Some(a))
    && (forall t :: t in w.terms && w.terms[t].clipState.Some? ==>
          && w.terms[t].clipState.value in w.outstanding
          && w.outstanding[w.terms[t].clipState.value].owner == t)
  }

  /** A read of a terminal that is not disposed carries the pending request. */
  ghost predicate ReadInv(w: World, r: ReadId)
    requires r in w.inFlight
  {
    var ctx := w.inFlight[r];
    && ctx.term in w.terms
    && var x := w.terms[ctx.term];
    if x.disposed then ctx.cancellable in x.cancelled
    else
      && x.clipState == Some(ctx.state) && x.dialog.None? && x.cancellable == Some(ctx.cancellable)
      && ctx.state in w.outstanding && w.outstanding[ctx.state].serial == ctx.serial
  }

  ghost predicate ReadsInv(w: World) {
    && (forall r :: r in w.inFlight ==> ReadInv(w, r))
    && (forall r, r' :: r in w.inFlight && r' in w.inFlight && r != r' && w.inFlight[r].term == w.inFlight[r'].term ==>
          w.terms[w.inFlight[r].term].disposed)
  }

  ghost predicate DialogsInv(w: World) {
    && (forall d :: d in w.dialogs ==> w.dialogs[d].term in w.terms)
    && (forall d :: d in w.dialogs && w.terms[w.dialogs[d].term].disposed ==> d in w.doomed)
    && (forall d :: d in w.dialogs && !w.terms[w.dialogs[d].term].disposed ==>
          && w.terms[w.dialogs[d].term].clipState == Some(w.dialogs[d].state)
          && w.terms[w.dialogs[d].term].dialog == Some(d)
          && w.dialogs[d].state in w.outstanding
          && w.outstanding[w.dialogs[d].state].serial == w.dialogs[d].serial)
  }

  /** Some read or some dialog carries every pending request. */
  ghost predicate CarriersInv(w: World) {
    && (forall t :: t in w.terms && w.terms[t].clipState.Some? && w.terms[t].dialog.None? ==>
          exists r :: r in w.inFlight && w.inFlight[r].term == t)
    && (forall t :: t in w.terms && w.terms[t].dialog.Some? ==>
          && w.terms[t].dialog.value in w.dialogs
          && w.terms[t].dialog.value !in w.doomed
          && w.dialogs[w.terms[t].dialog.value].term == t)
  }

  /** What a log says about serials: which have started, and which are open. */
  datatype Ledger = Ledger(next: nat, open: set<nat>) | Broken

  function Post(l: Ledger, e: Event): Ledger {
    match l
    case Broken => Broken
    case Ledger(next, open) =>
      match e
      case Started(n) => if n == next then Ledger(next + 1, open + {n}) else Broken
      case Settled(n, _) => if n in open then Ledger(next, open - {n}) else Broken
      case Misuse(_) => Broken
      case Orphaned(_) => Broken
  }

  function Audit(log: seq<Event>): Ledger
    decreases |log|
  {
    if log == [] then Ledger(0, {}) else Post(Audit(log[..|log| - 1]), log[|log| - 1])
  }

  ghost predicate LogInv(w: World) {
    && Audit(w.log).Ledger?
    && Audit(w.log).next == w.nextSerial
    && (forall a :: a in w.outstanding ==> w.outstanding[a].serial in Audit(w.log).open)
    && (forall n :: n in Audit(w.log).open ==>
          n < w.nextSerial && exists a :: a in w.outstanding && w.outstanding[a].serial == n)
    && (forall a, b :: a in w.outstanding && b in w.outstanding && a != b ==>
          w.outstanding[a].serial != w.outstanding[b].serial)
  }

  ghost predicate Inv(w: World) {
    TermsInv(w) && TicketsInv(w) && ReadsInv(w) && DialogsInv(w) && CarriersInv(w) && LogInv(w)
  }

  lemma AuditAppend(log: seq<Event>, e: Event)
    ensures Audit(log + [e]) == Post(Audit(log), e)
  {
    assert (log + [e])[..|log|] == log;
  }

  /** Settling the pending request of a live terminal is never a misuse, and
      closes exactly the request it names. */
  lemma SettleIsSafe(w: World, t: TermId, outcome: Outcome)
    requires t in w.terms && w.terms[t].clipState.Some? && w.terms[t].surface
    requires TicketsInv(w) && LogInv(w)
    ensures var a := w.terms[t].clipState.value;
            var w' := Settle(w, t, a, outcome);
            && w' == w.(outstanding := w.outstanding - {a},
                        log := w.log + [Settled(w.outstanding[a].serial, outcome)])
            && LogInv(w')
  {
    var a := w.terms[t].clipState.value;
    var n := w.outstanding[a].serial;
    var w' := Settle(w, t, a, outcome);
    AuditAppend(w.log, Settled(n, outcome));
    forall m | m in Audit(w'.log).open
      ensures exists b :: b in w'.outstanding && w'.outstanding[b].serial == m
    {
      var b :| b in w.outstanding && w.outstanding[b].serial == m;
      assert b in w'.outstanding;
    }
  }

  /** The pending request of `t` settled, and forgotten by the terminal. */
  function Close(w: World, t: TermId, outcome: Outcome): World
    requires t in w.terms && w.terms[t].clipState.Some? && w.terms[t].clipState.value in w.outstanding
  {
    var a := w.terms[t].clipState.value;
    w.(terms := w.terms[t := End(w.terms[t])],
       outstanding := w.outstanding - {a},
       log := w.log + [Settled(w.outstanding[a].serial, outcome)])
  }

  lemma CloseKeepsLog(w: World, t: TermId, outcome: Outcome)
    requires t in w.terms && w.terms[t].clipState.Some? && TermsInv(w) && TicketsInv(w) && LogInv(w)
    ensures LogInv(Close(w, t, outcome))
  {
    assert TermInv(w.terms[t]);
    SettleIsSafe(w, t, outcome);
    LogDependsOnOutstanding(Settle(w, t, w.terms[t].clipState.value, outcome), Close(w, t, outcome));
  }

  // ---- the three ways a terminal's request moves ----

  /** `t` gives up its request: read finished, dialog answered, or disposed. */
  ghost predicate Retired(w: World, w': World, t: TermId) {
    && t in w.terms && t in w'.terms
    && w'.terms == w.terms[t := w'.terms[t]]
    && w'.terms[t].clipState.None? && w'.terms[t].dialog.None? && TermInv(w'.terms[t])
    && w'.outstanding == (if w.terms[t].clipState.Some? then w.outstanding - {w.terms[t].clipState.value}
                          else w.outstanding)
    && (forall r :: r in w'.inFlight ==> r in w.inFlight && w'.inFlight[r] == w.inFlight[r])
    && (forall r :: r in w.inFlight && w.inFlight[r].term != t ==> r in w'.inFlight)
    && (forall r :: r in w'.inFlight && w'.inFlight[r].term == t ==>
          w'.terms[t].disposed && w'.inFlight[r].cancellable in w'.terms[t].cancelled)
    && (forall d :: d in w'.dialogs ==> d in w.dialogs && w'.dialogs[d] == w.dialogs[d])
    && (forall d :: d in w.dialogs && w.dialogs[d].term != t ==> d in w'.dialogs)
    && (forall d :: d in w'.dialogs && w'.dialogs[d].term == t ==> w'.terms[t].disposed && d in w'.doomed)
    && w.doomed <= w'.doomed
    && (forall d :: d in w'.doomed ==> d in w.doomed || w.terms[t].dialog == Some(d))
  }

  lemma RetiredKeepsTickets(w: World, w': World, t: TermId)
    requires Retired(w, w', t) && TermsInv(w) && TicketsInv(w)
    ensures TermsInv(w') && TicketsInv(w')
  {
  }

  lemma RetiredKeepsReads(w: World, w': World, t: TermId)
    requires Retired(w, w', t) && TicketsInv(w) && ReadsInv(w)
    ensures ReadsInv(w')
  {
    forall r | r in w'.inFlight && !w'.terms[w'.inFlight[r].term].disposed
      ensures w'.inFlight[r].state in w'.outstanding
    {
      var u := w.inFlight[r].term;
      assert w.terms[u].clipState == Some(w.inFlight[r].state);
    }
  }

  lemma RetiredKeepsDialogs(w: World, w': World, t: TermId)
    requires Retired(w, w', t) && TicketsInv(w) && DialogsInv(w)
    ensures DialogsInv(w')
  {
    forall d | d in w'.dialogs && !w'.terms[w'.dialogs[d].term].disposed
      ensures w'.dialogs[d].state in w'.outstanding
    {
      var u := w.dialogs[d].term;
      assert w.terms[u].clipState == Some(w.dialogs[d].state);
    }
  }

  lemma RetiredKeepsCarriers(w: World, w': World, t: TermId)
    requires Retired(w, w', t) && CarriersInv(w)
    ensures CarriersInv(w')
  {
    forall u | u in w'.terms && w'.terms[u].clipState.Some? && w'.terms[u].dialog.None?
      ensures exists q :: q in w'.inFlight && w'.inFlight[q].term == u
    {
      assert u != t && w'.terms[u] == w.terms[u];
      var q :| q in w.inFlight && w.inFlight[q].term == u;
      assert w'.inFlight[q].term == u;
    }
    forall u | u in w'.terms && w'.terms[u].dialog.Some?
      ensures && w'.terms[u].dialog.value in w'.dialogs
              && w'.terms[u].dialog.value !in w'.doomed
              && w'.dialogs[w'.terms[u].dialog.value].term == u
    {
      assert u != t && w'.terms[u] == w.terms[u];
      var d := w.terms[u].dialog.value;
      assert w.dialogs[d].term == u;
    }
  }

  lemma RetiredKeepsInv(w: World, w': World, t: TermId)
    requires Retired(w, w', t) && Inv(w) && LogInv(w')
    ensures Inv(w')
  {
    RetiredKeepsTickets(w, w', t);
    RetiredKeepsReads(w, w', t);
    RetiredKeepsDialogs(w, w', t);
    RetiredKeepsCarriers(w, w', t);
  }

  /** `t` takes on the request at `state`, carried by the new read `r`. */
  ghost predicate Adopted(w: World, w': World, t: TermId, state: Addr, r: ReadId, serial: nat) {
    && t in w.terms && w.terms[t].clipState.None? && w.terms[t].surface && !w.terms[t].disposed
    && state !in w.outstanding && r !in w.inFlight
    && w'.terms == w.terms[t := Begin(w.terms[t], state)]
    && w'.outstanding == w.outstanding[state := Ticket(serial, t)]
    && w'.inFlight == w.inFlight[r := ReadCtx(t, state, w.terms[t].nextCancellable, serial)]
    && w'.dialogs == w.dialogs && w'.doomed == w.doomed
  }

  lemma AdoptedKeepsTickets(w: World, w': World, t: TermId, state: Addr, r: ReadId, serial: nat)
    requires Adopted(w, w', t, state, r, serial)
    requires TermsInv(w) && TicketsInv(w)
    ensures TermsInv(w') && TicketsInv(w')
  {
  }

  lemma AdoptedKeepsReads(w: World, w': World, t: TermId, state: Addr, r: ReadId, serial: nat)
    requires Adopted(w, w', t, state, r, serial)
    requires TermsInv(w) && TicketsInv(w) && ReadsInv(w)
    ensures ReadsInv(w')
  {
    IdleHasNoRead(w, t);
    forall q | q in w'.inFlight ensures ReadInv(w', q) {
      AdoptedKeepsRead(w, w', t, state, r, serial, q);
    }
  }

  lemma AdoptedKeepsRead(w: World, w': World, t: TermId, state: Addr, r: ReadId, serial: nat, q: ReadId)
    requires Adopted(w, w', t, state, r, serial) && ReadsInv(w)
    requires q in w'.inFlight
    ensures ReadInv(w', q)
  {
    IdleHasNoRead(w, t);
    assert q != r ==> ReadInv(w, q) && w'.inFlight[q] == w.inFlight[q];
  }

  lemma IdleHasNoRead(w: World, t: TermId)
    requires ReadsInv(w) && t in w.terms && w.terms[t].clipState.None? && !w.terms[t].disposed
    ensures forall q :: q in w.inFlight ==> w.inFlight[q].term != t
  {
  }

  lemma AdoptedKeepsDialogs(w: World, w': World, t: TermId, state: Addr, r: ReadId, serial: nat)
    requires Adopted(w, w', t, state, r, serial)
    requires TermsInv(w) && TicketsInv(w) && ReadsInv(w) && DialogsInv(w)
    ensures DialogsInv(w')
  {
  }

  lemma AdoptedKeepsCarriers(w: World, w': World, t: TermId, state: Addr, r: ReadId, serial: nat)
    requires Adopted(w, w', t, state, r, serial) && CarriersInv(w) && TermsInv(w)
    ensures CarriersInv(w')
  {
    forall u | u in w'.terms && w'.terms[u].clipState.Some? && w'.terms[u].dialog.None?
      ensures exists q :: q in w'.inFlight && w'.inFlight[q].term == u
    {
      if u == t {
        assert w'.inFlight[r].term == u;
      } else {
        var q :| q in w.inFlight && w.inFlight[q].term == u;
        assert w'.inFlight[q].term == u;
      }
    }
    forall u | u in w'.terms && w'.terms[u].dialog.Some?
      ensures && w'.terms[u].dialog.value in w'.dialogs
              && w'.terms[u].dialog.value !in w'.doomed
              && w'.dialogs[w'.terms[u].dialog.value].term == u
    {
      assert u != t && w'.terms[u] == w.terms[u];
    }
  }

  lemma StartKeepsLog(w: World, state: Addr, t: TermId)
    requires LogInv(w) && state !in w.outstanding
    ensures LogInv(w.(outstanding := w.outstanding[state := Ticket(w.nextSerial, t)],
                      log := w.log + [Started(w.nextSerial)],
                      nextSerial := w.nextSerial + 1))
  {
    AuditAppend(w.log, Started(w.nextSerial));
    var outstanding := w.outstanding[state := Ticket(w.nextSerial, t)];
    forall m | m in Audit(w.log).open + {w.nextSerial}
      ensures exists b :: b in outstanding && outstanding[b].serial == m
    {
      if m == w.nextSerial {
        assert outstanding[state].serial == m;
      } else {
        var b :| b in w.outstanding && w.outstanding[b].serial == m;
        assert outstanding[b].serial == m;
      }
    }
  }

  lemma StartAndDenyKeepsLog(w: World)
    requires LogInv(w)
    ensures LogInv(w.(log := w.log + [Started(w.nextSerial)] + [Settled(w.nextSerial, Denied)],
                      nextSerial := w.nextSerial + 1))
  {
    assert w.nextSerial !in Audit(w.log).open;
    StartAndDenyAudit(w.log, w.nextSerial, Audit(w.log).open);
  }

  lemma StartAndDenyAudit(log: seq<Event>, next: nat, open: set<nat>)
    requires Audit(log) == Ledger(next, open) && next !in open
    ensures Audit(log + [Started(next)] + [Settled(next, Denied)]) == Ledger(next + 1, open)
  {
    AuditAppend(log, Started(next));
    AuditAppend(log + [Started(next)], Settled(next, Denied));
    assert open + {next} - {next} == open;
  }

  /** A request that finds another one pending is answered STARTED, denied at
      once, and leaves everything else as it was. */
  lemma SecondRequestIsDeniedAtOnce(w: World, s: Step)
    requires Inv(w) && s.Request? && Enabled(w, s)
    requires RequestAnswer(w, s.t, s.wantsText, s.listAvailable, s.textReady) == StartedRead
    requires w.terms[s.t].clipState.Some?
    ensures Take(w, s) == w.(log := w.log + [Started(w.nextSerial)] + [Settled(w.nextSerial, Denied)],
                             nextSerial := w.nextSerial + 1)
  {
    assert w.outstanding[s.state := Ticket(w.nextSerial, s.t)] - {s.state} == w.outstanding;
  }

  lemma RequestKeepsInv(w: World, s: Step)
    requires Inv(w) && s.Request? && Enabled(w, s)
    ensures Inv(Take(w, s))
  {
    var w' := Take(w, s);
    if RequestAnswer(w, s.t, s.wantsText, s.listAvailable, s.textReady) == StartedRead {
      if w.terms[s.t].clipState.Some? {
        SecondRequestIsDeniedAtOnce(w, s);
        StartAndDenyKeepsLog(w);
        SameRestKeepsInv(w, w');
      } else {
        FirstRequestAdopts(w, s);
        AdoptedKeepsInv(w, w', s.t, s.state, s.r, w.nextSerial);
      }
    }
  }

  lemma FirstRequestAdopts(w: World, s: Step)
    requires TermsInv(w) && LogInv(w) && s.Request? && Enabled(w, s) && w.terms[s.t].clipState.None?
    requires RequestAnswer(w, s.t, s.wantsText, s.listAvailable, s.textReady) == StartedRead
    ensures Adopted(w, Take(w, s), s.t, s.state, s.r, w.nextSerial) && LogInv(Take(w, s))
  {
    var w' := Take(w, s);
    assert TermInv(w.terms[s.t]);
    StartKeepsLog(w, s.state, s.t);
    LogDependsOnOutstanding(w.(outstanding := w'.outstanding, log := w'.log, nextSerial := w'.nextSerial), w');
  }

  lemma AdoptedKeepsInv(w: World, w': World, t: TermId, state: Addr, r: ReadId, serial: nat)
    requires Adopted(w, w', t, state, r, serial) && Inv(w) && LogInv(w')
    ensures Inv(w')
  {
    AdoptedKeepsTickets(w, w', t, state, r, serial);
    AdoptedKeepsReads(w, w', t, state, r, serial);
    AdoptedKeepsDialogs(w, w', t, state, r, serial);
    AdoptedKeepsCarriers(w, w', t, state, r, serial);
  }

  lemma SameRestKeepsInv(w: World, w': World)
    requires Inv(w) && LogInv(w')
    requires w' == w.(log := w'.log, nextSerial := w'.nextSerial)
    ensures Inv(w')
  {
    assert TermsInv(w') && TicketsInv(w');
    assert ReadsInv(w') && DialogsInv(w') && CarriersInv(w');
  }

  lemma LogDependsOnOutstanding(w: World, w': World)
    requires LogInv(w)
    requires w'.outstanding == w.outstanding && w'.log == w.log && w'.nextSerial == w.nextSerial
    ensures LogInv(w')
  {
  }

  /** The read of `t` hands the request over to the new dialog `d`. */
  ghost predicate HandedOver(w: World, w': World, r: ReadId, d: DialogId) {
    && r in w.inFlight && w.inFlight[r].term in w.terms
    && d !in w.dialogs && d !in w.doomed
    && var ctx := w.inFlight[r];
    && !w.terms[ctx.term].disposed
    && w'.terms == w.terms[ctx.term := w.terms[ctx.term].(dialog := Some(d))]
    && w'.outstanding == w.outstanding
    && w'.inFlight == w.inFlight - {r}
    && w'.dialogs == w.dialogs[d := ConfirmCtx(ctx.term, ctx.state, ctx.serial)]
    && w'.doomed == w.doomed
  }

  lemma HandedOverKeepsTickets(w: World, w': World, r: ReadId, d: DialogId)
    requires HandedOver(w, w', r, d)
    requires TermsInv(w) && TicketsInv(w) && ReadsInv(w)
    ensures TermsInv(w') && TicketsInv(w')
  {
  }

  lemma HandedOverKeepsReads(w: World, w': World, r: ReadId, d: DialogId)
    requires HandedOver(w, w', r, d)
    requires TermsInv(w) && TicketsInv(w) && ReadsInv(w)
    ensures ReadsInv(w')
  {
  }

  lemma HandedOverKeepsDialogs(w: World, w': World, r: ReadId, d: DialogId)
    requires HandedOver(w, w', r, d)
    requires TermsInv(w) && TicketsInv(w) && ReadsInv(w) && DialogsInv(w)
    ensures DialogsInv(w')
  {
  }

  lemma HandedOverKeepsCarriers(w: World, w': World, r: ReadId, d: DialogId)
    requires HandedOver(w, w', r, d)
    requires CarriersInv(w)
    ensures CarriersInv(w')
  {
    var t := w.inFlight[r].term;
    forall u | u in w'.terms && w'.terms[u].clipState.Some? && w'.terms[u].dialog.None?
      ensures exists q :: q in w'.inFlight && w'.inFlight[q].term == u
    {
      assert u != t && w'.terms[u] == w.terms[u];
      var q :| q in w.inFlight && w.inFlight[q].term == u;
      assert w'.inFlight[q].term == u;
    }
    forall u | u in w'.terms && w'.terms[u].dialog.Some? && u != t
      ensures && w'.terms[u].dialog.value in w'.dialogs
              && w'.terms[u].dialog.value !in w'.doomed
              && w'.dialogs[w'.terms[u].dialog.value].term == u
    {
      assert w'.terms[u] == w.terms[u];
    }
  }

  lemma StaleReadKeepsReads(w: World, r: ReadId)
    requires ReadsInv(w) && r in w.inFlight
    ensures ReadsInv(w.(inFlight := w.inFlight - {r}))
  {
  }

  lemma StaleReadKeepsCarriers(w: World, r: ReadId)
    requires TermsInv(w) && CarriersInv(w) && r in w.inFlight
    requires w.inFlight[r].term in w.terms && w.terms[w.inFlight[r].term].disposed
    ensures CarriersInv(w.(inFlight := w.inFlight - {r}))
  {
    var w' := w.(inFlight := w.inFlight - {r});
    assert TermInv(w.terms[w.inFlight[r].term]);
    forall u | u in w'.terms && w'.terms[u].clipState.Some? && w'.terms[u].dialog.None?
      ensures exists q :: q in w'.inFlight && w'.inFlight[q].term == u
    {
      var q :| q in w.inFlight && w.inFlight[q].term == u;
      assert w'.inFlight[q].term == u;
    }
  }

  lemma StaleReadKeepsRest(w: World, r: ReadId)
    requires TermsInv(w) && TicketsInv(w) && DialogsInv(w) && LogInv(w)
    ensures var w' := w.(inFlight := w.inFlight - {r});
            TermsInv(w') && TicketsInv(w') && DialogsInv(w') && LogInv(w')
  {
    LogDependsOnOutstanding(w, w.(inFlight := w.inFlight - {r}));
  }

  /** A stale read changes nothing but its own disappearance. */
  lemma StaleReadKeepsInv(w: World, r: ReadId)
    requires Inv(w) && r in w.inFlight && w.inFlight[r].term in w.terms && w.terms[w.inFlight[r].term].disposed
    ensures Inv(w.(inFlight := w.inFlight - {r}))
  {
    StaleReadKeepsReads(w, r);
    StaleReadKeepsCarriers(w, r);
    StaleReadKeepsRest(w, r);
  }

  /** So does the whole step of the read callback. */
  lemma StaleReadStep(w: World, s: Step)
    requires Inv(w) && s.ReadDone? && Enabled(w, s) && w.terms[w.inFlight[s.r].term].disposed
    ensures Take(w, s) == w.(inFlight := w.inFlight - {s.r}) && Inv(Take(w, s))
  {
    assert TermInv(w.terms[w.inFlight[s.r].term]);
    StaleReadKeepsInv(w, s.r);
  }

  /** Ghostty consumes the request that the read delivers. */
  lemma ReadDoneCloses(w: World, s: Step)
    requires TermsInv(w) && TicketsInv(w) && ReadsInv(w)
    requires s.ReadDone? && Enabled(w, s) && !s.needsConfirm
    requires var t := w.inFlight[s.r].term; t in w.terms && !w.terms[t].disposed
    ensures var t := w.inFlight[s.r].term;
            && w.terms[t].clipState.Some? && w.terms[t].clipState.value in w.outstanding
            && TakeReadDone(w, s.r, s.reachable, s.needsConfirm, s.d) ==
               Close(w, t, Completed(false)).(inFlight := w.inFlight - {s.r})
  {
    var ctx := w.inFlight[s.r];
    assert ReadInv(w, s.r) && TermInv(w.terms[ctx.term]);
  }

  lemma ReadDoneRetires(w: World, s: Step)
    requires TermsInv(w) && TicketsInv(w) && ReadsInv(w) && DialogsInv(w) && LogInv(w)
    requires s.ReadDone? && Enabled(w, s) && !s.needsConfirm
    requires !w.terms[w.inFlight[s.r].term].disposed
    ensures var w' := TakeReadDone(w, s.r, s.reachable, s.needsConfirm, s.d);
            Retired(w, w', w.inFlight[s.r].term) && LogInv(w')
  {
    var t := w.inFlight[s.r].term;
    ReadDoneCloses(w, s);
    CloseKeepsLog(w, t, Completed(false));
    LogDependsOnOutstanding(Close(w, t, Completed(false)), TakeReadDone(w, s.r, s.reachable, s.needsConfirm, s.d));
  }

  /** Ghostty keeps the request and asks the user. */
  lemma ReadDoneHandsOver(w: World, s: Step)
    requires TermsInv(w) && TicketsInv(w) && ReadsInv(w) && LogInv(w)
    requires s.ReadDone? && Enabled(w, s) && s.needsConfirm
    requires !w.terms[w.inFlight[s.r].term].disposed
    ensures HandedOver(w, Take(w, s), s.r, s.d) && LogInv(Take(w, s))
  {
    LogDependsOnOutstanding(w, Take(w, s));
  }

  lemma ReadDoneKeepsInv(w: World, s: Step)
    requires Inv(w) && s.ReadDone? && Enabled(w, s)
    ensures Inv(Take(w, s))
  {
    var w' := Take(w, s);
    if w.terms[w.inFlight[s.r].term].disposed {
      StaleReadStep(w, s);
    } else if s.needsConfirm {
      ReadDoneHandsOver(w, s);
      HandedOverKeepsTickets(w, w', s.r, s.d);
      HandedOverKeepsReads(w, w', s.r, s.d);
      HandedOverKeepsDialogs(w, w', s.r, s.d);
      HandedOverKeepsCarriers(w, w', s.r, s.d);
    } else {
      ReadDoneRetires(w, s);
      RetiredKeepsInv(w, w', w.inFlight[s.r].term);
    }
  }

  /** A dialog of a disposed terminal, or one that is queued for destruction. */
  ghost predicate StaleDialog(w: World, d: DialogId) {
    d in w.dialogs ==> w.dialogs[d].term in w.terms && w.terms[w.dialogs[d].term].disposed
  }

  lemma StaleDialogKeepsDialogs(w: World, d: DialogId, doomed: set<DialogId>)
    requires DialogsInv(w) && (doomed == w.doomed || doomed == w.doomed - {d})
    ensures DialogsInv(w.(dialogs := w.dialogs - {d}, doomed := doomed))
  {
  }

  lemma StaleDialogKeepsCarriers(w: World, d: DialogId, doomed: set<DialogId>)
    requires TermsInv(w) && CarriersInv(w) && StaleDialog(w, d)
    requires doomed == w.doomed || doomed == w.doomed - {d}
    ensures CarriersInv(w.(dialogs := w.dialogs - {d}, doomed := doomed))
  {
    var w' := w.(dialogs := w.dialogs - {d}, doomed := doomed);
    forall t | t in w'.terms && w'.terms[t].dialog.Some?
      ensures && w'.terms[t].dialog.value in w'.dialogs
              && w'.terms[t].dialog.value !in w'.doomed
              && w'.dialogs[w'.terms[t].dialog.value].term == t
    {
      assert TermInv(w.terms[t]);
    }
  }

  lemma StaleDialogKeepsRest(w: World, d: DialogId, doomed: set<DialogId>)
    requires TermsInv(w) && TicketsInv(w) && ReadsInv(w) && LogInv(w)
    ensures var w' := w.(dialogs := w.dialogs - {d}, doomed := doomed);
            TermsInv(w') && TicketsInv(w') && ReadsInv(w') && LogInv(w')
  {
    LogDependsOnOutstanding(w, w.(dialogs := w.dialogs - {d}, doomed := doomed));
  }

  lemma StaleDialogKeepsInv(w: World, d: DialogId, doomed: set<DialogId>)
    requires Inv(w) && StaleDialog(w, d)
    requires doomed == w.doomed || doomed == w.doomed - {d}
    ensures Inv(w.(dialogs := w.dialogs - {d}, doomed := doomed))
  {
    StaleDialogKeepsDialogs(w, d, doomed);
    StaleDialogKeepsCarriers(w, d, doomed);
    StaleDialogKeepsRest(w, d, doomed);
  }

  lemma DoomedDialogIsStale(w: World, d: DialogId)
    requires TermsInv(w) && DialogsInv(w) && CarriersInv(w) && d in w.doomed
    ensures StaleDialog(w, d)
  {
  }

  /** The user's answer settles the request. */
  lemma RespondCloses(w: World, s: Step)
    requires TermsInv(w) && TicketsInv(w) && DialogsInv(w)
    requires s.Respond? && Enabled(w, s)
    requires var t := w.dialogs[s.d].term; t in w.terms && !w.terms[t].disposed
    ensures var t := w.dialogs[s.d].term;
            && w.terms[t].clipState.Some? && w.terms[t].clipState.value in w.outstanding
            && TakeRespond(w, s.d, s.allowed, s.reachable) ==
               Close(w, t, Answer(s.allowed)).(dialogs := w.dialogs - {s.d})
  {
    assert TermInv(w.terms[w.dialogs[s.d].term]);
  }

  lemma RespondRetires(w: World, s: Step)
    requires TermsInv(w) && TicketsInv(w) && ReadsInv(w) && DialogsInv(w) && LogInv(w)
    requires s.Respond? && Enabled(w, s) && !w.terms[w.dialogs[s.d].term].disposed
    ensures var w' := TakeRespond(w, s.d, s.allowed, s.reachable);
            Retired(w, w', w.dialogs[s.d].term) && LogInv(w')
  {
    var t := w.dialogs[s.d].term;
    RespondCloses(w, s);
    CloseKeepsLog(w, t, Answer(s.allowed));
    LogDependsOnOutstanding(Close(w, t, Answer(s.allowed)), TakeRespond(w, s.d, s.allowed, s.reachable));
  }

  lemma RespondKeepsInv(w: World, s: Step)
    requires Inv(w) && s.Respond? && Enabled(w, s)
    ensures Inv(Take(w, s))
  {
    if w.terms[w.dialogs[s.d].term].disposed {
      StaleDialogKeepsInv(w, s.d, w.doomed);
    } else {
      RespondRetires(w, s);
      RetiredKeepsInv(w, Take(w, s), w.dialogs[s.d].term);
    }
  }

  /** Aborting denies what is pending, so that nothing waits for `t` any more. */
  lemma AbortSettles(w: World, t: TermId)
    requires t in w.terms && TermsInv(w) && TicketsInv(w) && LogInv(w)
    ensures var x := w.terms[t];
            var w' := Abort(w, t);
            && LogInv(w')
            && w'.outstanding == (if x.clipState.Some? then w.outstanding - {x.clipState.value} else w.outstanding)
            && (forall a :: a in w'.outstanding ==> w'.outstanding[a].owner != t)
  {
    var x := w.terms[t];
    if x.clipState.Some? {
      SettleIsSafe(w, t, Denied);
      LogDependsOnOutstanding(Settle(w, t, x.clipState.value, Denied), Abort(w, t));
    } else {
      LogDependsOnOutstanding(w, Abort(w, t));
    }
  }

  lemma AbortLeaves(w: World, t: TermId)
    requires t in w.terms
    ensures var w' := Abort(w, t);
            && w'.inFlight == w.inFlight && w'.dialogs == w.dialogs && w'.nextSerial == w.nextSerial
            && w'.terms == w.terms[t := End(Cancel(w.terms[t]))]
            && w'.doomed == w.doomed + (if w.terms[t].dialog.Some? then {w.terms[t].dialog.value} else {})
  {
  }

  /** The surface is freed when nothing waits for it any more. */
  lemma DisposeAfterAbort(w: World, t: TermId)
    requires t in w.terms
    requires forall a :: a in Abort(w, t).outstanding ==> Abort(w, t).outstanding[a].owner != t
    ensures var w1 := Abort(w, t);
            TakeDispose(w, t) == w1.(terms := w.terms[t := w1.terms[t].(surface := false, parented := false, disposed := true)])
  {
    var w1 := Abort(w, t);
    assert !Abandons(w1, t);
    assert TakeDispose(w, t).terms == w.terms[t := w1.terms[t].(surface := false, parented := false, disposed := true)];
  }

  lemma DisposeRetires(w: World, t: TermId)
    requires TermsInv(w) && TicketsInv(w) && ReadsInv(w) && DialogsInv(w) && LogInv(w)
    requires t in w.terms
    ensures Retired(w, TakeDispose(w, t), t) && LogInv(TakeDispose(w, t))
  {
    AbortSettles(w, t);
    AbortLeaves(w, t);
    DisposeAfterAbort(w, t);
    LogDependsOnOutstanding(Abort(w, t), TakeDispose(w, t));
    DisposedCarriers(w, t);
  }

  /** The reads of a disposed terminal are cancelled, its dialog is queued. */
  lemma DisposedCarriers(w: World, t: TermId)
    requires ReadsInv(w) && DialogsInv(w) && t in w.terms
    ensures forall r :: r in w.inFlight && w.inFlight[r].term == t ==>
              w.inFlight[r].cancellable in Cancel(w.terms[t]).cancelled
    ensures forall d :: d in w.dialogs && w.dialogs[d].term == t ==>
              d in w.doomed || w.terms[t].dialog == Some(d)
  {
    forall r | r in w.inFlight && w.inFlight[r].term == t
      ensures w.inFlight[r].cancellable in Cancel(w.terms[t]).cancelled
    {
      assert ReadInv(w, r);
    }
  }

  lemma DisposeKeepsInv(w: World, s: Step)
    requires Inv(w) && s.Dispose? && Enabled(w, s)
    ensures Inv(Take(w, s))
  {
    DisposeRetires(w, s.t);
    RetiredKeepsInv(w, Take(w, s), s.t);
  }

  /** A step that changes at most the surface and the parent of one terminal. */
  ghost predicate Plain(w: World, w': World, t: TermId) {
    && t in w'.terms
    && w' == w.(terms := w.terms[t := w'.terms[t]])
    && (if t in w.terms
        then w'.terms[t] == w.terms[t].(surface := w'.terms[t].surface, parented := w'.terms[t].parented)
        else w'.terms[t] == Term(false, false, false, None, None, None, {}, 0))
    && TermInv(w'.terms[t])
  }

  lemma PlainKeepsTickets(w: World, w': World, t: TermId)
    requires Plain(w, w', t) && TermsInv(w) && TicketsInv(w)
    ensures TermsInv(w') && TicketsInv(w')
  {
  }

  lemma PlainKeepsReads(w: World, w': World, t: TermId)
    requires Plain(w, w', t) && ReadsInv(w)
    ensures ReadsInv(w')
  {
  }

  lemma PlainKeepsDialogs(w: World, w': World, t: TermId)
    requires Plain(w, w', t) && DialogsInv(w)
    ensures DialogsInv(w')
  {
  }

  lemma PlainKeepsCarriers(w: World, w': World, t: TermId)
    requires Plain(w, w', t) && CarriersInv(w)
    ensures CarriersInv(w')
  {
  }

  lemma PlainStepKeepsInv(w: World, s: Step)
    requires Inv(w) && Enabled(w, s) && (s.Create? || s.Realize? || s.Reparent?)
    ensures Inv(Take(w, s))
  {
    var w' := Take(w, s);
    assert Plain(w, w', s.t);
    PlainKeepsTickets(w, w', s.t);
    PlainKeepsReads(w, w', s.t);
    PlainKeepsDialogs(w, w', s.t);
    PlainKeepsCarriers(w, w', s.t);
    LogDependsOnOutstanding(w, w');
  }

  /** Every step keeps the invariant. */
  lemma StepKeepsInv(w: World, s: Step)
    requires Inv(w) && Enabled(w, s)
    ensures Inv(Take(w, s))
  {
    if s.Request? {
      RequestKeepsInv(w, s);
    } else if s.ReadDone? {
      ReadDoneKeepsInv(w, s);
    } else if s.Respond? {
      RespondKeepsInv(w, s);
    } else if s.Dispose? {
      DisposeKeepsInv(w, s);
    } else if s.DestroyDialog? {
      DoomedDialogIsStale(w, s.d);
      StaleDialogKeepsInv(w, s.d, w.doomed - {s.d});
    } else {
      PlainStepKeepsInv(w, s);
    }
  }

  lemma {:induction false} RunKeepsInv(worlds: seq<World>, steps: seq<Step>, n: nat)
    requires IsRun(worlds, steps) && n <= |steps|
    ensures Inv(worlds[n])
  {
    if n > 0 {
      RunKeepsInv(worlds, steps, n - 1);
      assert Leads(worlds[n - 1], steps[n - 1], worlds[n - 1 + 1]);
      StepKeepsInv(worlds[n - 1], steps[n - 1]);
    }
  }
}
