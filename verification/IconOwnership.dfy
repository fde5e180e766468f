/**
  Who owns the icon string that the listeners of an ended search are given.
  All of them are given one string that the cache owns
  (src/gtk/project_icon_cache.c:646-656); replacing or evicting the entry frees
  it, and a listener may cause either before the next listener is called.
 */
module IconOwnership {
  import opened Options
  import opened IconPending

  /** The string that each entry of the cache owns, by the number under which it
      was made; numbers are not used again. */
  datatype Strings = Strings(owned: map<Root, nat>, next: nat)

  function Replace(o: Strings, root: Root): Strings {
    Strings(o.owned[root := o.next], o.next + 1)
  }

  function EvictIf(o: Strings, root: Root, dead: bool): Strings {
    if dead then o.(owned := o.owned - {root}) else o
  }

  function TakeStrings(o: Strings, s: State, step: Step): Strings
    requires Enabled(s, step)
  {
    match step
    case Ask(_, wanted, alive) =>
      if wanted.Some? then EvictIf(o, wanted.value, IsDead(s.cache, wanted.value, alive)) else o
    case Look(root, alive) => EvictIf(o, root, IsDead(s.cache, root, alive))
    case SearchEnded(i, icon, alive) =>
      var root := s.searches[i];
      EvictIf(Replace(o, root), root, IsDead(s.cache[root := icon], root, alive))
    case RestoreEntry(root, _) => if root == "" then o else Replace(o, root)
    case CallListener => o
    case RunIdle(_) => o
  }

  /** The step replaces the entry of a root, or finds its file gone. */
  predicate Touches(s: State, step: Step, root: Root)
    requires Enabled(s, step)
  {
    match step
    case Ask(_, wanted, alive) => wanted == Some(root) && IsDead(s.cache, root, alive)
    case Look(r, alive) => r == root && IsDead(s.cache, root, alive)
    case SearchEnded(i, _, _) => s.searches[i] == root
    case RestoreEntry(r, _) => r == root && root != ""
    case CallListener => false
    case RunIdle(_) => false
  }

  /** The strings along a run. */
  ghost predicate IsTrace(states: seq<State>, steps: seq<Step>, trace: seq<Strings>) {
    && IsRun(states, steps) && |trace| == |states| && trace[0] == Strings(map[], 0)
    && forall k :: 0 <= k < |steps| ==> Follows(states[k], steps[k], trace[k], trace[k + 1])
  }

  predicate Follows(s: State, step: Step, o: Strings, o': Strings) {
    Enabled(s, step) && o' == TakeStrings(o, s, step)
  }

  ghost predicate NoneTouches(states: seq<State>, steps: seq<Step>, k: nat, m: nat, root: Root)
    requires k <= m <= |steps| && IsRun(states, steps)
  {
    forall j :: k <= j < m ==> Leads(states[j], steps[j], states[j + 1]) && !Touches(states[j], steps[j], root)
  }

  predicate Owns(o: Strings, root: Root, n: nat) {
    root in o.owned && o.owned[root] == n
  }

  /** Every entry of the cache owns a string, made earlier. */
  ghost predicate Matches(o: Strings, s: State) {
    && (forall r :: r in o.owned <==> r in s.cache)
    && forall r :: r in o.owned ==> o.owned[r] < o.next
  }

  lemma {:induction false} TraceMatches(states: seq<State>, steps: seq<Step>, trace: seq<Strings>, k: nat)
    requires IsTrace(states, steps, trace) && k < |states|
    ensures Matches(trace[k], states[k])
  {
    if k > 0 {
      TraceMatches(states, steps, trace, k - 1);
      assert Leads(states[k - 1], steps[k - 1], states[k - 1 + 1]);
      assert Follows(states[k - 1], steps[k - 1], trace[k - 1], trace[k - 1 + 1]);
    }
  }

  lemma StepOwnsIff(s: State, step: Step, o: Strings, root: Root, n: nat)
    requires Enabled(s, step) && Matches(o, s) && n < o.next
    ensures n < TakeStrings(o, s, step).next
    ensures Owns(TakeStrings(o, s, step), root, n) <==> Owns(o, root, n) && !Touches(s, step, root)
  {
  }

  /** The string that an entry owns at one time is still there at a later time
      exactly when no step in between replaces the entry or finds its file
      gone: not the reentrant request or lookup as such does harm. */
  lemma {:induction false} StringStaysIff(states: seq<State>, steps: seq<Step>, trace: seq<Strings>, k: nat, m: nat, root: Root)
    requires IsTrace(states, steps, trace) && k <= m <= |steps| && root in trace[k].owned
    ensures trace[k].owned[root] < trace[m].next
    ensures Owns(trace[m], root, trace[k].owned[root]) <==> NoneTouches(states, steps, k, m, root)
  {
    TraceMatches(states, steps, trace, k);
    if k < m {
      StringStaysIff(states, steps, trace, k, m - 1, root);
      TraceMatches(states, steps, trace, m - 1);
      assert Leads(states[m - 1], steps[m - 1], states[m - 1 + 1]);
      assert Follows(states[m - 1], steps[m - 1], trace[m - 1], trace[m - 1 + 1]);
      StepOwnsIff(states[m - 1], steps[m - 1], trace[m - 1], root, trace[k].owned[root]);
    }
  }

  /** While no step touches the entry, what is cached stays what the listeners of
      the search were given. */
  lemma {:induction false} CachedStays(states: seq<State>, steps: seq<Step>, k: nat, m: nat, root: Root)
    requires IsRun(states, steps) && k <= m <= |steps| && NoneTouches(states, steps, k, m, root)
    ensures root in states[m].cache <==> root in states[k].cache
    ensures Cached(states[m].cache, root) == Cached(states[k].cache, root)
  {
    if k < m {
      CachedStays(states, steps, k, m - 1, root);
      assert Leads(states[m - 1], steps[m - 1], states[m - 1 + 1]);
      StepKeepsEntry(states[m - 1], steps[m - 1], root);
    }
  }

  lemma StepKeepsEntry(s: State, step: Step, root: Root)
    requires Enabled(s, step) && !Touches(s, step, root)
    ensures root in Take(s, step).cache <==> root in s.cache
    ensures Cached(Take(s, step).cache, root) == Cached(s.cache, root)
  {
  }

  /** Two listeners wait for one search.  The first looks the root up again, and
      the file is gone by then: the string due to the second is freed. */
  lemma ListenerCanFree(root: Root, icon: string) returns (states: seq<State>, steps: seq<Step>, trace: seq<Strings>)
    requires icon != ""
    ensures IsTrace(states, steps, trace) && |steps| == 5
    ensures steps[2] == SearchEnded(0, icon, true) && steps[3] == CallListener && steps[4] == Look(root, false)
    ensures root in trace[3].owned && !Owns(trace[5], root, trace[3].owned[root])
    ensures states[5].firing == [Delivery(Request(1, root), root, icon)]
  {
    var a, b := Request(0, root), Request(1, root);
    var s2 := State(map[], map[root := [a, b]], [root], [], [], [a, b], []);
    var s1 := TwoAsks(root, s2);
    var da, db := Delivery(a, root, icon), Delivery(b, root, icon);
    var s3 := s2.(cache := map[root := icon], pending := map[], searches := [], firing := [da, db]);
    var s4 := s3.(firing := [db], delivered := [da]);
    var s5 := s4.(cache := map[]);
    steps := [Ask(0, Some(root), true), Ask(1, Some(root), true), SearchEnded(0, icon, true), CallListener, Look(root, false)];
    states := [INITIAL, s1, s2, s3, s4, s5];
    var none, one, gone := Strings(map[], 0), Strings(map[root := 0], 1), Strings(map[], 1);
    trace := [none, none, none, one, one, gone];
    SearchEnds(root, icon, s2, s3);
    assert Leads(s3, steps[3], s4) && Leads(s4, steps[4], s5);
    StringMadeAndFreed(root, icon, s2, s4);
  }

  lemma StringMadeAndFreed(root: Root, icon: string, s2: State, s4: State)
    requires icon != "" && s2.searches == [root] && s4.cache == map[root := icon]
    ensures Follows(s2, SearchEnded(0, icon, true), Strings(map[], 0), Strings(map[root := 0], 1))
    ensures Follows(s4, Look(root, false), Strings(map[root := 0], 1), Strings(map[], 1))
  {
  }

  lemma TwoAsks(root: Root, s2: State) returns (s1: State)
    requires s2 == State(map[], map[root := [Request(0, root), Request(1, root)]], [root], [], [],
                         [Request(0, root), Request(1, root)], [])
    ensures Leads(INITIAL, Ask(0, Some(root), true), s1) && Leads(s1, Ask(1, Some(root), true), s2)
  {
    var a, b := Request(0, root), Request(1, root);
    s1 := State(map[], map[root := [a]], [root], [], [], [a], []);
    assert [a] + [b] == [a, b];
    assert TakeAsk(s1, 1, Some(root), true) == s2;
  }

  lemma SearchEnds(root: Root, icon: string, s2: State, s3: State)
    requires s2.cache == map[] && s2.searches == [root] && s2.firing == []
    requires s2.pending == map[root := [Request(0, root), Request(1, root)]]
    requires s3 == s2.(cache := map[root := icon], pending := map[], searches := [],
                       firing := [Delivery(Request(0, root), root, icon), Delivery(Request(1, root), root, icon)])
    ensures Leads(s2, SearchEnded(0, icon, true), s3)
  {
  }
}
