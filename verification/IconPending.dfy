/**
  Requests for project icons (src/gtk/project_icon_cache.c:528-727): a cache of
  results, one running search per root, the listeners that wait for it, and the
  callbacks queued for when the program is idle.
 */
module IconPending {
  import opened Options
  import opened Sequences

  type Root = string

  /** One call of project_icon_cache_request with a callback. */
  datatype Request = Request(id: nat, root: Root)

  /** A callback that was called, and what it was given. */
  datatype Delivery = Delivery(request: Request, root: Root, icon: string)

  datatype State = State(
    cache: map<Root, string>,            // "" records that there is no icon
    pending: map<Root, seq<Request>>,
    searches: seq<Root>,                 // running in threads
    idles: seq<Delivery>,                // queued for an idle moment
    firing: seq<Delivery>,               // listeners of ended searches, still to be called
    accepted: seq<Request>,
    delivered: seq<Delivery>)

  datatype Step =
    /** A request; `alive` tells whether the icon file in the cache still exists. */
    | Ask(id: nat, wanted: Option<Root>, alive: bool)
    /** A lookup from elsewhere. */
    | Look(root: Root, alive: bool)
    /** The search with this index ended. */
    | SearchEnded(i: nat, icon: string, alive: bool)
    /** The next listener of an ended search is called. */
    | CallListener
    /** A queued callback is called. */
    | RunIdle(i: nat)
    /** An entry is put back from a session file. */
    | RestoreEntry(root: Root, icon: string)

  const INITIAL := State(map[], map[], [], [], [], [], [])

  /** project_icon_cache_lookup evicts an entry whose file is gone. */
  function Evicted(cache: map<Root, string>, root: Root, alive: bool): map<Root, string> {
    if IsDead(cache, root, alive) then cache - {root} else cache
  }

  predicate IsDead(cache: map<Root, string>, root: Root, alive: bool) {
    root in cache && cache[root] != "" && !alive
  }

  function Cached(cache: map<Root, string>, root: Root): string {
    if root in cache then cache[root] else ""
  }

  function TakeAsk(s: State, id: nat, root: Option<Root>, alive: bool): State {
    if root.None? then
      var r := Request(id, "");
      s.(accepted := s.accepted + [r], idles := s.idles + [Delivery(r, "", "")])
    else
      var r := Request(id, root.value);
      var cache := Evicted(s.cache, r.root, alive);
      var s' := s.(accepted := s.accepted + [r], cache := cache);
      if r.root in cache then
        s'.(idles := s.idles + [Delivery(r, r.root, cache[r.root])])
      else if r.root in s.pending then
        s'.(pending := s.pending[r.root := s.pending[r.root] + [r]])
      else
        s'.(pending := s.pending[r.root := [r]], searches := s.searches + [r.root])
  }

  function Deliveries(listeners: seq<Request>, root: Root, icon: string): (r: seq<Delivery>)
    ensures |r| == |listeners|
    ensures forall i :: 0 <= i < |listeners| ==> r[i] == Delivery(listeners[i], root, icon)
  {
    seq(|listeners|, i requires 0 <= i < |listeners| => Delivery(listeners[i], root, icon))
  }

  /** The listeners are taken out of the table before the first is called, so a
      request made by one of them does not join them. */
  function TakeSearchEnded(s: State, i: nat, icon: string, alive: bool): State
    requires i < |s.searches|
  {
    var root := s.searches[i];
    var cache := Evicted(s.cache[root := icon], root, alive);
    var listeners := if root in s.pending then s.pending[root] else [];
    s.(cache := cache,
       pending := s.pending - {root},
       searches := s.searches[..i] + s.searches[i + 1..],
       firing := Deliveries(listeners, root, Cached(cache, root)) + s.firing)
  }

  predicate Enabled(s: State, step: Step) {
    match step
    case Ask(id, _, _) => forall i :: 0 <= i < |s.accepted| ==> s.accepted[i].id != id
    case Look(_, _) => true
    case SearchEnded(i, _, _) => i < |s.searches|
    case CallListener => s.firing != []
    case RunIdle(i) => i < |s.idles|
    case RestoreEntry(_, _) => true
  }

  function Take(s: State, step: Step): State
    requires Enabled(s, step)
  {
    match step
    case Ask(id, root, alive) => TakeAsk(s, id, root, alive)
    case Look(root, alive) => s.(cache := Evicted(s.cache, root, alive))
    case SearchEnded(i, icon, alive) => TakeSearchEnded(s, i, icon, alive)
    case CallListener => s.(firing := s.firing[1..], delivered := s.delivered + [s.firing[0]])
    case RunIdle(i) => s.(idles := s.idles[..i] + s.idles[i + 1..], delivered := s.delivered + [s.idles[i]])
    case RestoreEntry(root, icon) => if root == "" then s else s.(cache := s.cache[root := icon])
  }

  // ---- one search per root ----

  /** A root has listeners exactly while one search for it is running. */
  ghost predicate OneSearchPerRoot(s: State) {
    && Distinct(s.searches)
    && forall r :: r in s.pending <==> r in s.searches
  }

  lemma CutOut<T>(xs: seq<T>, i: nat)
    requires i < |xs| && Distinct(xs)
    ensures var cut := xs[..i] + xs[i + 1..];
            Distinct(cut) && forall x :: x in cut <==> x in xs && x != xs[i]
  {
    assert xs == xs[..i] + [xs[i]] + xs[i + 1..];
    DistinctMiddle(xs[..i], [xs[i]], xs[i + 1..]);
    assert xs[i] in [xs[i]];
  }

  lemma StepKeepsOneSearch(s: State, step: Step)
    requires OneSearchPerRoot(s) && Enabled(s, step)
    ensures OneSearchPerRoot(Take(s, step))
  {
    match step
    case Ask(id, root, alive) =>
      if root.Some? {
        DistinctParts(s.searches, [root.value]);
      }
    case SearchEnded(i, icon, alive) => CutOut(s.searches, i);
    case _ =>
  }

  // ---- nobody is forgotten, nobody is called twice ----

  function AllIn(lists: map<Root, seq<Request>>, roots: seq<Root>): seq<Request> {
    if roots == [] then []
    else (if roots[0] in lists then lists[roots[0]] else []) + AllIn(lists, roots[1..])
  }

  /** The requests that wait, search by search. */
  function Waiting(s: State): seq<Request> {
    AllIn(s.pending, s.searches)
  }

  function Requests(ds: seq<Delivery>): (r: seq<Request>)
    ensures |r| == |ds|
    ensures forall i :: 0 <= i < |ds| ==> r[i] == ds[i].request
  {
    seq(|ds|, i requires 0 <= i < |ds| => ds[i].request)
  }

  lemma RequestsConcat(a: seq<Delivery>, b: seq<Delivery>)
    ensures Requests(a + b) == Requests(a) + Requests(b)
  {
  }

  /** Every accepted request has been delivered, or is queued, or waits for a
      search, or is about to be called: one of them, and once. */
  ghost predicate Conserved(s: State) {
    multiset(s.accepted) ==
    multiset(Requests(s.delivered)) + multiset(Requests(s.idles)) + multiset(Requests(s.firing)) + multiset(Waiting(s))
  }

  lemma {:induction false} AllInOthers(lists: map<Root, seq<Request>>, lists': map<Root, seq<Request>>, roots: seq<Root>)
    requires forall r :: r in roots ==> (r in lists <==> r in lists') && (r in lists ==> lists[r] == lists'[r])
    ensures AllIn(lists, roots) == AllIn(lists', roots)
  {
    if roots != [] {
      assert roots[0] in roots;
      AllInOthers(lists, lists', roots[1..]);
    }
  }

  lemma {:induction false} AllInConcat(lists: map<Root, seq<Request>>, a: seq<Root>, b: seq<Root>)
    ensures AllIn(lists, a + b) == AllIn(lists, a) + AllIn(lists, b)
  {
    if a == [] {
      assert a + b == b;
    } else {
      assert (a + b)[1..] == a[1..] + b;
      AllInConcat(lists, a[1..], b);
    }
  }

  /** The waiting requests, around those of one search. */
  lemma WaitingAround(lists: map<Root, seq<Request>>, searches: seq<Root>, i: nat)
    requires i < |searches| && searches[i] in lists
    ensures AllIn(lists, searches) == AllIn(lists, searches[..i]) + lists[searches[i]] + AllIn(lists, searches[i + 1..])
  {
    assert searches == searches[..i] + [searches[i]] + searches[i + 1..];
    AllInConcat(lists, searches[..i] + [searches[i]], searches[i + 1..]);
    AllInConcat(lists, searches[..i], [searches[i]]);
    assert [searches[i]][1..] == [];
    assert lists[searches[i]] + [] == lists[searches[i]];
  }

  lemma JoinWaiting(s: State, r: Request)
    requires OneSearchPerRoot(s) && r.root in s.pending
    ensures multiset(AllIn(s.pending[r.root := s.pending[r.root] + [r]], s.searches)) == multiset(Waiting(s)) + multiset{r}
  {
    var i :| 0 <= i < |s.searches| && s.searches[i] == r.root;
    var lists' := s.pending[r.root := s.pending[r.root] + [r]];
    CutOut(s.searches, i);
    WaitingAround(s.pending, s.searches, i);
    WaitingAround(lists', s.searches, i);
    AllInOthers(s.pending, lists', s.searches[..i]);
    AllInOthers(s.pending, lists', s.searches[i + 1..]);
    MiddleGrows(AllIn(s.pending, s.searches[..i]), s.pending[r.root], AllIn(s.pending, s.searches[i + 1..]), r);
  }

  lemma MiddleGrows(a: seq<Request>, m: seq<Request>, b: seq<Request>, r: Request)
    ensures multiset(a + (m + [r]) + b) == multiset(a + m + b) + multiset{r}
  {
  }

  lemma FirstWaiting(s: State, r: Request)
    requires OneSearchPerRoot(s) && r.root !in s.pending
    ensures multiset(AllIn(s.pending[r.root := [r]], s.searches + [r.root])) == multiset(Waiting(s)) + multiset{r}
  {
    var lists' := s.pending[r.root := [r]];
    AllInConcat(lists', s.searches, [r.root]);
    AllInOthers(s.pending, lists', s.searches);
    assert AllIn(lists', [r.root]) == [r] by {
      assert [r.root][1..] == [] && [r] + [] == [r];
    }
  }

  lemma EndWaiting(s: State, i: nat)
    requires OneSearchPerRoot(s) && i < |s.searches|
    ensures s.searches[i] in s.pending
    ensures multiset(Waiting(s)) ==
            multiset(AllIn(s.pending - {s.searches[i]}, s.searches[..i] + s.searches[i + 1..])) +
            multiset(s.pending[s.searches[i]])
  {
    var root := s.searches[i];
    CutOut(s.searches, i);
    WaitingAround(s.pending, s.searches, i);
    AllInConcat(s.pending - {root}, s.searches[..i], s.searches[i + 1..]);
    AllInOthers(s.pending, s.pending - {root}, s.searches[..i]);
    AllInOthers(s.pending, s.pending - {root}, s.searches[i + 1..]);
  }

  lemma RequestsOfDeliveries(listeners: seq<Request>, root: Root, icon: string)
    ensures Requests(Deliveries(listeners, root, icon)) == listeners
  {
  }

  lemma QueueConserves(s: State, d: Delivery, cache: map<Root, string>)
    requires Conserved(s)
    ensures Conserved(s.(accepted := s.accepted + [d.request], cache := cache, idles := s.idles + [d]))
  {
    RequestsConcat(s.idles, [d]);
    assert Requests([d]) == [d.request];
  }

  lemma JoinConserves(s: State, r: Request, cache: map<Root, string>)
    requires OneSearchPerRoot(s) && Conserved(s) && r.root in s.pending
    ensures Conserved(s.(accepted := s.accepted + [r], cache := cache,
                         pending := s.pending[r.root := s.pending[r.root] + [r]]))
  {
    JoinWaiting(s, r);
    assert multiset(s.accepted + [r]) == multiset(s.accepted) + multiset{r};
  }

  lemma FirstConserves(s: State, r: Request, cache: map<Root, string>)
    requires OneSearchPerRoot(s) && Conserved(s) && r.root !in s.pending
    ensures Conserved(s.(accepted := s.accepted + [r], cache := cache,
                         pending := s.pending[r.root := [r]], searches := s.searches + [r.root]))
  {
    FirstWaiting(s, r);
    assert multiset(s.accepted + [r]) == multiset(s.accepted) + multiset{r};
  }

  lemma AskConserves(s: State, id: nat, root: Option<Root>, alive: bool)
    requires OneSearchPerRoot(s) && Conserved(s)
    ensures Conserved(TakeAsk(s, id, root, alive))
  {
    if root.None? {
      QueueConserves(s, Delivery(Request(id, ""), "", ""), s.cache);
    } else {
      var r, cache := Request(id, root.value), Evicted(s.cache, root.value, alive);
      if r.root in cache {
        QueueConserves(s, Delivery(r, r.root, cache[r.root]), cache);
      } else if r.root in s.pending {
        JoinConserves(s, r, cache);
      } else {
        FirstConserves(s, r, cache);
      }
    }
  }

  lemma EndConserves(s: State, i: nat, icon: string, alive: bool)
    requires OneSearchPerRoot(s) && Conserved(s) && i < |s.searches|
    ensures Conserved(TakeSearchEnded(s, i, icon, alive))
  {
    var root := s.searches[i];
    var s' := TakeSearchEnded(s, i, icon, alive);
    EndWaiting(s, i);
    var ds := Deliveries(s.pending[root], root, Cached(s'.cache, root));
    RequestsOfDeliveries(s.pending[root], root, Cached(s'.cache, root));
    RequestsConcat(ds, s.firing);
  }

  lemma CallConserves(s: State)
    requires Conserved(s) && s.firing != []
    ensures Conserved(s.(firing := s.firing[1..], delivered := s.delivered + [s.firing[0]]))
  {
    assert s.firing == [s.firing[0]] + s.firing[1..];
    RequestsConcat([s.firing[0]], s.firing[1..]);
    RequestsConcat(s.delivered, [s.firing[0]]);
  }

  lemma IdleConserves(s: State, i: nat)
    requires Conserved(s) && i < |s.idles|
    ensures Conserved(s.(idles := s.idles[..i] + s.idles[i + 1..], delivered := s.delivered + [s.idles[i]]))
  {
    assert s.idles == s.idles[..i] + [s.idles[i]] + s.idles[i + 1..];
    RequestsConcat(s.idles[..i] + [s.idles[i]], s.idles[i + 1..]);
    RequestsConcat(s.idles[..i], [s.idles[i]]);
    RequestsConcat(s.idles[..i], s.idles[i + 1..]);
    RequestsConcat(s.delivered, [s.idles[i]]);
  }

  lemma StepConserves(s: State, step: Step)
    requires OneSearchPerRoot(s) && Conserved(s) && Enabled(s, step)
    ensures Conserved(Take(s, step))
  {
    match step
    case Ask(id, root, alive) => AskConserves(s, id, root, alive);
    case SearchEnded(i, icon, alive) => EndConserves(s, i, icon, alive);
    case CallListener => CallConserves(s);
    case RunIdle(i) => IdleConserves(s, i);
    case Look(_, _) =>
    case RestoreEntry(_, _) =>
  }

  // ---- everybody is told about the root they asked for ----

  predicate OwnRoots(ds: seq<Delivery>) {
    forall i :: 0 <= i < |ds| ==> ds[i].root == ds[i].request.root
  }

  ghost predicate RootsMatch(s: State) {
    && OwnRoots(s.delivered) && OwnRoots(s.idles) && OwnRoots(s.firing)
    && forall r, i :: r in s.pending && 0 <= i < |s.pending[r]| ==> s.pending[r][i].root == r
  }

  lemma StepKeepsRoots(s: State, step: Step)
    requires RootsMatch(s) && Enabled(s, step)
    ensures RootsMatch(Take(s, step))
  {
  }

  lemma StepKeepsIds(s: State, step: Step)
    requires Distinct(s.accepted) && Enabled(s, step)
    ensures Distinct(Take(s, step).accepted)
  {
    if step.Ask? {
      var r := Request(step.id, if step.wanted.Some? then step.wanted.value else "");
      DistinctParts(s.accepted, [r]);
    }
  }

  ghost predicate Inv(s: State) {
    OneSearchPerRoot(s) && Conserved(s) && RootsMatch(s) && Distinct(s.accepted)
  }

  // ---- runs ----

  ghost predicate IsRun(states: seq<State>, steps: seq<Step>) {
    && |states| == |steps| + 1 && states[0] == INITIAL
    && forall k :: 0 <= k < |steps| ==> Leads(states[k], steps[k], states[k + 1])
  }

  predicate Leads(s: State, step: Step, s': State) {
    Enabled(s, step) && s' == Take(s, step)
  }

  /** In every run, with requests made from callbacks and entries evicted at any
      time, the table and the running searches agree and no request is lost. */
  lemma {:induction false} RunKeepsInv(states: seq<State>, steps: seq<Step>, k: nat)
    requires IsRun(states, steps) && k < |states|
    ensures Inv(states[k])
  {
    if k > 0 {
      RunKeepsInv(states, steps, k - 1);
      assert Leads(states[k - 1], steps[k - 1], states[k - 1 + 1]);
      StepKeepsOneSearch(states[k - 1], steps[k - 1]);
      StepConserves(states[k - 1], steps[k - 1]);
      StepKeepsRoots(states[k - 1], steps[k - 1]);
      StepKeepsIds(states[k - 1], steps[k - 1]);
    }
  }

  lemma DistinctPart(all: seq<Request>, part: seq<Request>)
    requires Distinct(all) && multiset(part) <= multiset(all)
    ensures Distinct(part) && forall r :: r in part ==> r in all
  {
    DistinctCounts(all);
    forall i, j | 0 <= i < j < |part| ensures part[i] != part[j] {
      assert part == part[..j] + [part[j]] + part[j + 1..];
      assert part[i] in part[..j];
      assert multiset(part)[part[j]] <= multiset(all)[part[j]] <= 1;
    }
    forall r | r in part ensures r in all {
      assert r in multiset(part);
      assert r in multiset(all);
    }
  }

  /** At any time, a callback has been called at most once, for a request that
      was made, and with the root that was asked for.  When no search runs, no
      listener is due and nothing is queued, every request has had its one call. */
  lemma OneCallEach(states: seq<State>, steps: seq<Step>, k: nat)
    requires IsRun(states, steps) && k < |states|
    ensures var s := states[k];
            && Distinct(Requests(s.delivered))
            && (forall i :: 0 <= i < |s.delivered| ==>
                  s.delivered[i].request in s.accepted && s.delivered[i].root == s.delivered[i].request.root)
            && (s.searches == [] && s.firing == [] && s.idles == [] ==>
                  multiset(Requests(s.delivered)) == multiset(s.accepted) && s.pending == map[])
  {
    var s := states[k];
    RunKeepsInv(states, steps, k);
    DistinctPart(s.accepted, Requests(s.delivered));
    forall i | 0 <= i < |s.delivered| ensures s.delivered[i].request in s.accepted {
      assert Requests(s.delivered)[i] in Requests(s.delivered);
    }
    if s.searches == [] {
      assert forall r :: r !in s.pending;
      assert s.pending == map[];
    }
  }

  // ---- the program's own form ----

  /** The tables and queues as the program keeps them. */
  class IconCache {
    var cache: map<Root, string>
    var pending: map<Root, seq<Request>>
    var searches: seq<Root>
    var idles: seq<Delivery>
    var firing: seq<Delivery>
    ghost var accepted: seq<Request>
    ghost var delivered: seq<Delivery>

    constructor ()
      ensures Val() == INITIAL
    {
      cache, pending, searches, idles, firing := map[], map[], [], [], [];
      accepted, delivered := [], [];
    }

    ghost function Val(): State
      reads this
    {
      State(cache, pending, searches, idles, firing, accepted, delivered)
    }

    method Lookup(root: Root, alive: bool) returns (icon: string)
      modifies this`cache
      ensures cache == Evicted(old(cache), root, alive)
      ensures icon == Cached(cache, root)
    {
      if root !in cache || cache[root] == "" {
        return "";
      }
      if !alive {
        cache := cache - {root};
        return "";
      }
      return cache[root];
    }

    method Submit(id: nat, root: Option<Root>, alive: bool)
      modifies this
      ensures Val() == TakeAsk(old(Val()), id, root, alive)
    {
      var r := Request(id, if root.Some? then root.value else "");
      accepted := accepted + [r];
      if root.None? {
        idles := idles + [Delivery(r, "", "")];
        return;
      }
      var cached := Lookup(r.root, alive);
      if cached != "" || r.root in cache {
        idles := idles + [Delivery(r, r.root, cached)];
        return;
      }
      if r.root !in pending {
        pending := pending[r.root := []];
        searches := searches + [r.root];
      }
      assert pending[r.root] + [r] == if r.root in old(pending) then old(pending)[r.root] + [r] else [r];
      pending := pending[r.root := pending[r.root] + [r]];
    }

    method SearchComplete(i: nat, icon: string, alive: bool)
      requires i < |searches|
      modifies this
      ensures Val() == TakeSearchEnded(old(Val()), i, icon, alive)
    {
      var root := searches[i];
      searches := searches[..i] + searches[i + 1..];
      cache := cache[root := icon];
      var listeners: seq<Request> := [];
      if root in pending {
        listeners := pending[root];
        pending := pending - {root};
      }
      var stored := Lookup(root, alive);
      firing := Deliveries(listeners, root, stored) + firing;
    }
  }
}
