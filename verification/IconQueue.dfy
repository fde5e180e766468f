/**
  A breadth-first walk with a queue (src/gtk/project_icon_cache.c:454-520), for
  any tree of bounded depth.  The queue yields the nodes level by level, every
  node below the start and no other; and it comes to an end, whatever the tree,
  because every node is replaced by deeper ones.
 */
module IconQueue {
  import opened Sequences

  const MAX_DEPTH: int := 6

  datatype Forest<!T> = Forest(children: T -> seq<T>, parent: T -> T, depth: T -> nat)

  ghost predicate Bounded<T(!new)>(f: Forest<T>) {
    forall x, c {:trigger c in f.children(x)} :: c in f.children(x) ==>
      f.parent(c) == x && f.depth(c) == f.depth(x) + 1 && f.depth(c) <= MAX_DEPTH
  }

  // ---- the queue ----

  /** How many nodes of a queue are at a given depth. */
  function AtDepth<T>(f: Forest<T>, queue: seq<T>, d: nat): nat {
    if queue == [] then 0 else (if f.depth(queue[0]) == d then 1 else 0) + AtDepth(f, queue[1..], d)
  }

  lemma {:induction false} AtDepthConcat<T>(f: Forest<T>, a: seq<T>, b: seq<T>, d: nat)
    ensures AtDepth(f, a + b, d) == AtDepth(f, a, d) + AtDepth(f, b, d)
  {
    if a == [] {
      assert a + b == b;
    } else {
      assert (a + b)[1..] == a[1..] + b;
      AtDepthConcat(f, a[1..], b, d);
    }
  }

  lemma {:induction false} NoneAtDepth<T>(f: Forest<T>, a: seq<T>, d: nat)
    requires forall q :: q in a ==> f.depth(q) != d
    ensures AtDepth(f, a, d) == 0
  {
    if a != [] {
      NoneAtDepth(f, a[1..], d);
    }
  }

  ghost predicate Shallow<T>(f: Forest<T>, queue: seq<T>) {
    forall q :: q in queue ==> f.depth(q) <= MAX_DEPTH
  }

  /** The queue after its head has been taken and the head's children added. */
  function Advance<T>(f: Forest<T>, queue: seq<T>): seq<T>
    requires queue != []
  {
    queue[1..] + f.children(queue[0])
  }

  /** Replacing a node by deeper ones makes the counts lexicographically
      smaller. */
  lemma AdvanceCounts<T(!new)>(f: Forest<T>, queue: seq<T>, d: nat)
    requires queue != [] && Bounded(f)
    ensures d < f.depth(queue[0]) ==> AtDepth(f, Advance(f, queue), d) == AtDepth(f, queue, d)
    ensures d == f.depth(queue[0]) ==> AtDepth(f, Advance(f, queue), d) < AtDepth(f, queue, d)
  {
    AtDepthConcat(f, queue[1..], f.children(queue[0]), d);
    if d <= f.depth(queue[0]) {
      NoneAtDepth(f, f.children(queue[0]), d);
    }
  }

  lemma AdvanceShrinks<T(!new)>(f: Forest<T>, queue: seq<T>)
    requires queue != [] && Shallow(f, queue) && Bounded(f)
    ensures Shallow(f, Advance(f, queue))
    ensures forall d: nat :: d < f.depth(queue[0]) ==> AtDepth(f, Advance(f, queue), d) == AtDepth(f, queue, d)
    ensures AtDepth(f, Advance(f, queue), f.depth(queue[0])) < AtDepth(f, queue, f.depth(queue[0]))
  {
    forall d: nat ensures d < f.depth(queue[0]) ==> AtDepth(f, Advance(f, queue), d) == AtDepth(f, queue, d) {
      AdvanceCounts(f, queue, d);
    }
    AdvanceCounts(f, queue, f.depth(queue[0]));
  }

  /** The nodes in the order in which the queue yields them. */
  ghost function Visits<T(!new)>(f: Forest<T>, queue: seq<T>): seq<T>
    requires Shallow(f, queue) && Bounded(f)
    decreases AtDepth(f, queue, 0), AtDepth(f, queue, 1), AtDepth(f, queue, 2), AtDepth(f, queue, 3),
              AtDepth(f, queue, 4), AtDepth(f, queue, 5), AtDepth(f, queue, 6)
  {
    if queue == [] then []
    else
      AdvanceShrinks(f, queue);
      [queue[0]] + Visits(f, Advance(f, queue))
  }

  // ---- levels ----

  function AllChildren<T>(f: Forest<T>, nodes: seq<T>): seq<T> {
    if nodes == [] then [] else f.children(nodes[0]) + AllChildren(f, nodes[1..])
  }

  /** The nodes `k` generations below some nodes. */
  function Level<T>(f: Forest<T>, start: seq<T>, k: nat): seq<T> {
    if k == 0 then start else AllChildren(f, Level(f, start, k - 1))
  }

  /** The first `n` levels, one after the other. */
  function Levels<T>(f: Forest<T>, start: seq<T>, n: nat): seq<T> {
    if n == 0 then [] else Levels(f, start, n - 1) + Level(f, start, n - 1)
  }

  lemma {:induction false} InAllChildren<T(!new)>(f: Forest<T>, nodes: seq<T>, q: T)
    requires Bounded(f)
    ensures q in AllChildren(f, nodes) <==> f.parent(q) in nodes && q in f.children(f.parent(q))
  {
    if nodes != [] {
      InAllChildren(f, nodes[1..], q);
      assert nodes == [nodes[0]] + nodes[1..];
    }
  }

  lemma VisitFirst<T(!new)>(f: Forest<T>, a: seq<T>, b: seq<T>)
    requires a != [] && Shallow(f, a) && Shallow(f, b) && Bounded(f)
    ensures Shallow(f, a + b) && Shallow(f, a[1..]) && Shallow(f, b + f.children(a[0]))
    ensures Shallow(f, a[1..] + (b + f.children(a[0])))
    ensures Visits(f, a + b) == [a[0]] + Visits(f, a[1..] + (b + f.children(a[0])))
  {
    assert (a + b)[1..] == a[1..] + b;
    ConcatAssociates(a[1..], b, f.children(a[0]));
    AdvanceShrinks(f, a + b);
  }

  /** What is in front of the queue comes out first, and its children come out
      after everything that was behind it. */
  lemma {:induction false} VisitsInFront<T(!new)>(f: Forest<T>, a: seq<T>, b: seq<T>)
    requires Shallow(f, a) && Shallow(f, b) && Bounded(f)
    ensures Shallow(f, a + b) && Shallow(f, b + AllChildren(f, a))
    ensures Visits(f, a + b) == a + Visits(f, b + AllChildren(f, a))
    decreases |a|
  {
    if a == [] {
      assert a + b == b && b + [] == b;
    } else {
      var rest, children := a[1..], f.children(a[0]);
      VisitFirst(f, a, b);
      VisitsInFront(f, rest, b + children);
      ConcatAssociates(b, children, AllChildren(f, rest));
      Unsplit(a, Visits(f, b + AllChildren(f, a)));
    }
  }

  lemma Unsplit<T>(a: seq<T>, b: seq<T>)
    requires a != []
    ensures [a[0]] + (a[1..] + b) == a + b
  {
  }

  lemma VisitsOneLevel<T(!new)>(f: Forest<T>, level: seq<T>)
    requires Bounded(f) && Shallow(f, level)
    ensures Shallow(f, AllChildren(f, level)) && Visits(f, level) == level + Visits(f, AllChildren(f, level))
  {
    VisitsInFront(f, level, []);
    assert level + [] == level && [] + AllChildren(f, level) == AllChildren(f, level);
  }

  /** What the queue has yielded after `n` levels. */
  lemma {:induction false} VisitsAfterLevels<T(!new)>(f: Forest<T>, start: seq<T>, n: nat)
    requires Bounded(f) && Shallow(f, start)
    ensures Shallow(f, Level(f, start, n))
    ensures Visits(f, start) == Levels(f, start, n) + Visits(f, Level(f, start, n))
  {
    if n == 0 {
      assert [] + Visits(f, start) == Visits(f, start);
    } else {
      var level, front := Level(f, start, n - 1), Levels(f, start, n - 1);
      VisitsAfterLevels(f, start, n - 1);
      VisitsOneLevel(f, level);
      ConcatAssociates(front, level, Visits(f, AllChildren(f, level)));
    }
  }

  lemma {:induction false} LevelDepth<T(!new)>(f: Forest<T>, root: T, k: nat)
    requires Bounded(f) && f.depth(root) == 0
    ensures forall q :: q in Level(f, [root], k) ==> f.depth(q) == k <= MAX_DEPTH
  {
    if k > 0 {
      var level := Level(f, [root], k - 1);
      LevelDepth(f, root, k - 1);
      forall q | q in AllChildren(f, level) ensures f.depth(q) == k <= MAX_DEPTH {
        InAllChildren(f, level, q);
      }
    }
  }

  lemma FirstIsMember<T>(s: seq<T>)
    ensures s != [] ==> s[0] in s
  {
  }

  /** The queue goes through the levels in order; there are none below the
      depth limit. */
  lemma VisitsLevelByLevel<T(!new)>(f: Forest<T>, root: T, n: nat)
    requires Bounded(f) && f.depth(root) == 0 && n > MAX_DEPTH
    ensures Shallow(f, [root]) && Visits(f, [root]) == Levels(f, [root], n)
  {
    VisitsAfterLevels(f, [root], n);
    LevelDepth(f, root, n);
    var level := Level(f, [root], n);
    FirstIsMember(level);
    assert Levels(f, [root], n) + [] == Levels(f, [root], n);
  }

  // ---- which nodes ----

  /** Below the root, by way of parents. */
  predicate Reachable<T(==)>(f: Forest<T>, root: T, p: T)
    decreases f.depth(p)
  {
    if f.depth(p) == 0 then p == root
    else p in f.children(f.parent(p)) && f.depth(f.parent(p)) < f.depth(p) && Reachable(f, root, f.parent(p))
  }

  lemma {:induction false} LevelIsReachable<T(!new)>(f: Forest<T>, root: T, k: nat, p: T)
    requires Bounded(f) && f.depth(root) == 0
    ensures p in Level(f, [root], k) <==> f.depth(p) == k && Reachable(f, root, p)
  {
    if k > 0 {
      InAllChildren(f, Level(f, [root], k - 1), p);
      LevelIsReachable(f, root, k - 1, f.parent(p));
    }
  }

  lemma {:induction false} InLevels<T(!new)>(f: Forest<T>, root: T, n: nat, p: T)
    requires Bounded(f) && f.depth(root) == 0
    ensures p in Levels(f, [root], n) <==> f.depth(p) < n && Reachable(f, root, p)
  {
    if n > 0 {
      LevelIsReachable(f, root, n - 1, p);
      InLevels(f, root, n - 1, p);
    }
  }

  /** The queue yields exactly the nodes below the root. */
  lemma VisitsExactlyTheReachable<T(!new)>(f: Forest<T>, root: T, p: T)
    requires Bounded(f) && f.depth(root) == 0
    ensures Shallow(f, [root])
    ensures p in Visits(f, [root]) <==> Reachable(f, root, p)
  {
    var n := f.depth(p) + MAX_DEPTH + 1;
    VisitsLevelByLevel(f, root, n);
    InLevels(f, root, n, p);
  }

  // ---- no node twice ----

  lemma {:induction false} AllChildrenDistinct<T(!new)>(f: Forest<T>, nodes: seq<T>)
    requires Bounded(f) && Distinct(nodes) && forall x :: Distinct(f.children(x))
    ensures Distinct(AllChildren(f, nodes))
  {
    if nodes != [] {
      var first, rest := f.children(nodes[0]), AllChildren(f, nodes[1..]);
      AllChildrenDistinct(f, nodes[1..]);
      forall q | q in first ensures q !in rest {
        InAllChildren(f, nodes[1..], q);
      }
      DistinctParts(first, rest);
    }
  }

  lemma {:induction false} LevelDistinct<T(!new)>(f: Forest<T>, root: T, k: nat)
    requires Bounded(f) && forall x :: Distinct(f.children(x))
    ensures Distinct(Level(f, [root], k))
  {
    if k > 0 {
      LevelDistinct(f, root, k - 1);
      AllChildrenDistinct(f, Level(f, [root], k - 1));
    }
  }

  lemma {:induction false} LevelsDistinct<T(!new)>(f: Forest<T>, root: T, n: nat)
    requires Bounded(f) && f.depth(root) == 0 && forall x :: Distinct(f.children(x))
    ensures Distinct(Levels(f, [root], n))
  {
    if n > 0 {
      var front, last := Levels(f, [root], n - 1), Level(f, [root], n - 1);
      LevelDistinct(f, root, n - 1);
      LevelDepth(f, root, n - 1);
      LevelsDistinct(f, root, n - 1);
      forall p | p in last ensures p !in front {
        InLevels(f, root, n - 1, p);
      }
      DistinctParts(front, last);
    }
  }

  /** Where no node has a child twice, none is visited twice. */
  lemma VisitsOnce<T(!new)>(f: Forest<T>, root: T)
    requires Bounded(f) && f.depth(root) == 0 && forall x :: Distinct(f.children(x))
    ensures Shallow(f, [root]) && Distinct(Visits(f, [root]))
  {
    var n := f.depth(root) + MAX_DEPTH + 1;
    VisitsLevelByLevel(f, root, n);
    LevelsDistinct(f, root, n);
  }
}
