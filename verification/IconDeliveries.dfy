/**
  What the callbacks of icon requests are told (src/gtk/project_icon_cache.c:558-712):
  the icon that the cache held for their root when the answer was made.
 */
module IconDeliveries {
  import opened Options
  import opened IconPending

  /** The cache has an answer for a root: that there is no icon, or one whose
      file is still there. */
  predicate Answers(s: State, root: Root, alive: bool) {
    root in s.cache && (s.cache[root] == "" || alive)
  }

  /** A request without a root is told so; one whose root the cache can answer
      for is told that answer; any other waits, with a search if none runs, and
      the cache has nothing for its root any more.  No callback is called yet. */
  lemma AskAnswersFromCache(s: State, id: nat, wanted: Option<Root>, alive: bool)
    requires Enabled(s, Ask(id, wanted, alive))
    ensures var s' := Take(s, Ask(id, wanted, alive));
            && s'.delivered == s.delivered && s'.firing == s.firing
            && match wanted
               case None => s' == s.(accepted := s.accepted + [Request(id, "")],
                                     idles := s.idles + [Delivery(Request(id, ""), "", "")])
               case Some(root) =>
                 var r := Request(id, root);
                 if Answers(s, root, alive)
                 then s' == s.(accepted := s.accepted + [r], idles := s.idles + [Delivery(r, root, s.cache[root])])
                 else && s'.accepted == s.accepted + [r] && s'.idles == s.idles
                      && s'.cache == s.cache - {root}
                      && s'.pending == s.pending[root := (if root in s.pending then s.pending[root] else []) + [r]]
                      && s'.searches == s.searches + if root in s.pending then [] else [root]
  {
    if wanted.Some? && !Answers(s, wanted.value, alive) {
      var root := wanted.value;
      assert root !in s.cache ==> s.cache - {root} == s.cache;
      assert [] + [Request(id, root)] == [Request(id, root)];
    }
  }

  /** The listeners of a search are told what it found, if that is still there;
      the cache then says the same. */
  lemma EndTellsWhatWasFound(s: State, i: nat, icon: string, alive: bool)
    requires OneSearchPerRoot(s) && i < |s.searches|
    ensures var (s', root) := (Take(s, SearchEnded(i, icon, alive)), s.searches[i]);
            var told := if alive then icon else "";
            && root in s.pending
            && s'.firing == Deliveries(s.pending[root], root, told) + s.firing
            && s'.pending == s.pending - {root} && root !in s'.searches
            && s'.idles == s.idles && s'.delivered == s.delivered && s'.accepted == s.accepted
            && s'.cache == (if alive || icon == "" then s.cache[root := icon] else s.cache - {root})
            && Cached(s'.cache, root) == told
  {
    var root := s.searches[i];
    CutOut(s.searches, i);
    assert s.cache[root := icon] - {root} == s.cache - {root};
  }

  /** A delivery is made by a step: with the answer of the cache to a request, or
      with the result of the search it waited for. */
  ghost predicate MadeBy(s: State, step: Step, d: Delivery) {
    match step
    case Ask(id, None, _) => d == Delivery(Request(id, ""), "", "")
    case Ask(id, Some(root), alive) =>
      Answers(s, root, alive) && d == Delivery(Request(id, root), root, s.cache[root])
    case SearchEnded(i, icon, alive) =>
      && i < |s.searches| && s.searches[i] in s.pending && d.request in s.pending[s.searches[i]]
      && d.root == s.searches[i] && d.icon == if alive then icon else ""
    case _ => false
  }

  ghost predicate MadeBefore(states: seq<State>, steps: seq<Step>, k: nat, d: Delivery)
    requires k <= |steps| < |states|
  {
    exists j :: 0 <= j < k && MadeBy(states[j], steps[j], d)
  }

  predicate InHand(s: State, d: Delivery) {
    d in s.idles || d in s.firing || d in s.delivered
  }

  lemma NewDeliveriesAreMade(s: State, step: Step, d: Delivery)
    requires OneSearchPerRoot(s) && Enabled(s, step) && InHand(Take(s, step), d) && !InHand(s, d)
    ensures MadeBy(s, step, d)
  {
    match step
    case Ask(id, wanted, alive) => AskAnswersFromCache(s, id, wanted, alive);
    case SearchEnded(i, icon, alive) => EndTellsWhatWasFound(s, i, icon, alive);
    case Look(_, _) =>
    case RestoreEntry(_, _) =>
    case CallListener =>
    case RunIdle(_) =>
  }

  /** In every run, whatever a callback is told or is about to be told was the
      truth about its root when it was put together. */
  lemma {:induction false} CallbacksAreToldTheTruth(states: seq<State>, steps: seq<Step>, k: nat, d: Delivery)
    requires IsRun(states, steps) && k < |states| && InHand(states[k], d)
    ensures MadeBefore(states, steps, k, d)
  {
    if k > 0 {
      assert Leads(states[k - 1], steps[k - 1], states[k - 1 + 1]);
      RunKeepsInv(states, steps, k - 1);
      if InHand(states[k - 1], d) {
        CallbacksAreToldTheTruth(states, steps, k - 1, d);
        var j :| 0 <= j < k - 1 && MadeBy(states[j], steps[j], d);
      } else {
        NewDeliveriesAreMade(states[k - 1], steps[k - 1], d);
      }
    }
  }
}
