/**
  search_for_icon with its queue, its best candidate so far and its deadline
  (src/gtk/project_icon_cache.c:407-526).
 */
module IconSearcher {
  import opened IconQueue
  import opened IconSearch
  import opened Options
  import opened Sequences

  const GOOD_ENOUGH: int := 10

  datatype DirQueueItem = DirQueueItem(path: Path, depth: nat, preferredContext: bool)

  function Paths(queue: seq<DirQueueItem>): (r: seq<Path>)
    ensures |r| == |queue|
    ensures forall i :: 0 <= i < |queue| ==> r[i] == queue[i].path
  {
    seq(|queue|, i requires 0 <= i < |queue| => queue[i].path)
  }

  /** Depths are lengths, and every item has the preferred context. */
  predicate Sound(queue: seq<DirQueueItem>) {
    forall i :: 0 <= i < |queue| ==> queue[i].depth == |queue[i].path| && queue[i].preferredContext
  }

  /** Reads the clock.  `left` is how many more readings find the deadline not
      yet passed (None: it never passes); once passed it stays so. */
  method Expired(left: Option<nat>) returns (expired: bool, left': Option<nat>)
    ensures expired <==> left == Some(0)
    ensures left.None? ==> left'.None?
  {
    if left.None? {
      return false, None;
    }
    if left.value == 0 {
      return true, left;
    }
    return false, Some(left.value - 1);
  }

  method ConsiderCandidate(root: string, best: Best, p: Path) returns (best': Best)
    ensures best' == Consider(best, ScoreIn(root), p)
  {
    var s := Score(root, p);
    if s.None? {
      return best;
    }
    if best.Nothing? || s.value < best.score {
      return Found(p, s.value);
    }
    return best;
  }

  lemma BestOfMore(score: Scorer, files: seq<Path>, p: Path)
    ensures BestOf(score, files + [p]) == Consider(BestOf(score, files), score, p)
  {
    assert (files + [p])[..|files|] == files;
  }

  lemma SelectMore(dir: Path, names: seq<string>, keep: string -> bool, i: nat, before: seq<Path>)
    requires i < |names|
    ensures before + Select(dir, names, keep, i + 1) ==
            before + Select(dir, names, keep, i) + if keep(names[i]) then [dir + [names[i]]] else []
  {
  }

  /** The best so far, after one more name. */
  lemma BestOfSelected(score: Scorer, dir: Path, names: seq<string>, keep: string -> bool, i: nat, seen: seq<Path>)
    requires i < |names|
    ensures var best := BestOf(score, seen + Select(dir, names, keep, i));
            BestOf(score, seen + Select(dir, names, keep, i + 1)) ==
            if keep(names[i]) then Consider(best, score, dir + [names[i]]) else best
  {
    SelectMore(dir, names, keep, i, seen);
    var files := seen + Select(dir, names, keep, i);
    BestOfMore(score, files, dir + [names[i]]);
    assert files + [] == files;
  }

  method ProbeOneDir(root: string, fs: FileSystem, dir: Path, names: seq<string>, best: Best, ghost seen: seq<Path>)
    returns (best': Best)
    requires best == BestOf(ScoreIn(root), seen)
    ensures best' == BestOf(ScoreIn(root), seen + Select(dir, names, Present(fs, dir), |names|))
  {
    best' := best;
    assert seen + [] == seen;
    for i := 0 to |names|
      invariant best' == BestOf(ScoreIn(root), seen + Select(dir, names, Present(fs, dir), i))
    {
      BestOfSelected(ScoreIn(root), dir, names, Present(fs, dir), i, seen);
      if fs.present(dir + [names[i]]) {
        best' := ConsiderCandidate(root, best', dir + [names[i]]);
      }
    }
  }

  lemma ProbeDirsMore(fs: FileSystem, dirs: seq<Path>, names: seq<string>, i: nat)
    requires i < |dirs|
    ensures ProbeDirs(fs, dirs, names, i + 1) ==
            if fs.isDir(dirs[i])
            then ProbeDirs(fs, dirs, names, i) + Select(dirs[i], names, Present(fs, dirs[i]), |names|)
            else ProbeDirs(fs, dirs, names, i)
  {
  }

  method ProbeCandidateDirs(root: string, fs: FileSystem, dirs: seq<Path>, names: seq<string>) returns (best: Best)
    ensures best == BestOf(ScoreIn(root), ProbeDirs(fs, dirs, names, |dirs|))
  {
    best := Nothing;
    for i := 0 to |dirs|
      invariant best == BestOf(ScoreIn(root), ProbeDirs(fs, dirs, names, i))
    {
      ghost var before := ProbeDirs(fs, dirs, names, i);
      ProbeDirsMore(fs, dirs, names, i);
      if fs.isDir(dirs[i]) {
        best := ProbeOneDir(root, fs, dirs[i], names, best, before);
      }
    }
  }

  /** One entry of a directory: a subdirectory is queued, a file considered. */
  method ReadEntry(root: string, fs: FileSystem, item: DirQueueItem, entry: string,
                   queue: seq<DirQueueItem>, best: Best)
    returns (queue': seq<DirQueueItem>, best': Best)
    requires item.depth == |item.path| && item.preferredContext && Sound(queue)
    ensures Sound(queue')
    ensures Paths(queue') == Paths(queue) + if Entered(fs, item.path)(entry) then [item.path + [entry]] else []
    ensures best' == if Looked(fs, item.path)(entry)
                     then Consider(best, ScoreIn(root), item.path + [entry]) else best
  {
    queue', best' := queue, best;
    if Hidden(entry) {
      return;
    }
    var full := item.path + [entry];
    var preferredChild := item.preferredContext || InListCi(entry, PREFERRED);
    if fs.isDir(full) {
      if InListCi(entry, PRUNED) {
        return;
      }
      var allowDescend := item.depth < SHALLOW_DEPTH || preferredChild;
      if allowDescend && item.depth + 1 <= MAX_DEPTH {
        queue' := queue + [DirQueueItem(full, item.depth + 1, preferredChild)];
      }
    } else if item.preferredContext || item.depth <= 1 || IsCandidate(entry) {
      best' := ConsiderCandidate(root, best, full);
    }
  }

  /** The entries of one directory, up to the first reading of the clock after
      the deadline. */
  method ReadDir(root: string, fs: FileSystem, item: DirQueueItem, names: seq<string>,
                 queue: seq<DirQueueItem>, best: Best, left: Option<nat>, ghost seen: seq<Path>)
    returns (queue': seq<DirQueueItem>, best': Best, left': Option<nat>, stopped: bool, ghost n: nat)
    requires item.depth == |item.path| && item.preferredContext && Sound(queue)
    requires best == BestOf(ScoreIn(root), seen)
    ensures Sound(queue') && n <= |names| && (!stopped ==> n == |names|)
    ensures left.None? ==> left'.None? && !stopped
    ensures Paths(queue') == Paths(queue) + Select(item.path, names, Entered(fs, item.path), n)
    ensures best' == BestOf(ScoreIn(root), seen + Select(item.path, names, Looked(fs, item.path), n))
  {
    queue', best', left', stopped, n := queue, best, left, false, 0;
    assert Paths(queue) + [] == Paths(queue) && seen + [] == seen;
    for i := 0 to |names|
      invariant n == i && Sound(queue')
      invariant left.None? ==> left'.None?
      invariant Paths(queue') == Paths(queue) + Select(item.path, names, Entered(fs, item.path), i)
      invariant best' == BestOf(ScoreIn(root), seen + Select(item.path, names, Looked(fs, item.path), i))
    {
      var expired;
      expired, left' := Expired(left');
      if expired {
        stopped := true;
        return;
      }
      queue', best' := ReadEntry(root, fs, item, names[i], queue', best');
      SelectMore(item.path, names, Entered(fs, item.path), i, Paths(queue));
      BestOfSelected(ScoreIn(root), item.path, names, Looked(fs, item.path), i, seen);
      n := i + 1;
    }
  }

  lemma {:induction false} SelectGrows(dir: Path, names: seq<string>, keep: string -> bool, n: nat, m: nat)
    requires n <= m <= |names|
    ensures Select(dir, names, keep, n) <= Select(dir, names, keep, m)
  {
    if n < m {
      SelectGrows(dir, names, keep, n, m - 1);
    }
  }

  /** What is left to look at once a directory has been read to its end. */
  lemma WalkStep(fs: FileSystem, queue: seq<Path>, looked: seq<Path>)
    requires queue != [] && Bounded(Tree(fs)) && Shallow(Tree(fs), queue)
    ensures var rest := Advance(Tree(fs), queue);
            && Shallow(Tree(fs), rest)
            && |Visits(Tree(fs), rest)| < |Visits(Tree(fs), queue)|
            && looked + FilesIn(fs, Visits(Tree(fs), queue)) ==
               looked + Files(fs, queue[0]) + FilesIn(fs, Visits(Tree(fs), rest))
  {
    AdvanceShrinks(Tree(fs), queue);
    var later := Visits(Tree(fs), Advance(Tree(fs), queue));
    assert ([queue[0]] + later)[1..] == later;
    ConcatAssociates(looked, Files(fs, queue[0]), FilesIn(fs, later));
  }

  /** The first file of least score, or nothing exactly when none has a score. */
  ghost predicate Optimal(best: Best, score: Scorer, files: seq<Path>) {
    && (best.Nothing? <==> forall j :: 0 <= j < |files| ==> score(files[j]).None?)
    && (best.Found? ==> exists i: nat :: LeastAt(score, files, i) && best == Found(files[i], score(files[i]).value))
  }

  lemma BestIsOptimal(score: Scorer, files: seq<Path>)
    ensures Optimal(BestOf(score, files), score, files)
  {
    var i := BestIsFirstMinimum(score, files);
  }

  /** What a search that is in no hurry may find. */
  predicate IsEligible(fs: FileSystem, p: Path) {
    IsQuick(fs, p) || IsBelow(fs, p)
  }

  /** Nothing exactly when no eligible file has a score; else an eligible file
      than which none has a lower one. */
  ghost predicate LeastEligible(best: Best, root: string, fs: FileSystem) {
    && (best.Nothing? <==> forall p :: IsEligible(fs, p) ==> Score(root, p).None?)
    && (best.Found? ==>
          && IsEligible(fs, best.path) && Score(root, best.path) == Some(best.score)
          && forall p :: IsEligible(fs, p) && Score(root, p).Some? ==> best.score <= Score(root, p).value)
  }

  /** Files are eligible exactly when they are probed or walked. */
  lemma EligibleIff(fs: FileSystem, p: Path)
    ensures IsEligible(fs, p) <==> p in Probe(fs) + Walk(fs)
  {
    ProbeIff(fs, p);
    WalkIff(fs, p);
  }

  lemma OptimalIsLeast(best: Best, root: string, fs: FileSystem)
    requires Optimal(best, ScoreIn(root), Probe(fs) + Walk(fs))
    ensures LeastEligible(best, root, fs)
  {
    var files := Probe(fs) + Walk(fs);
    forall p ensures IsEligible(fs, p) <==> p in files {
      EligibleIff(fs, p);
    }
    LeastAmong(best, root, files);
  }

  lemma LeastAmong(best: Best, root: string, files: seq<Path>)
    requires Optimal(best, ScoreIn(root), files)
    ensures best.Nothing? <==> forall p :: p in files ==> Score(root, p).None?
    ensures best.Found? ==> && best.path in files && Score(root, best.path) == Some(best.score)
                            && forall p :: p in files && Score(root, p).Some? ==> best.score <= Score(root, p).value
  {
    assert forall p :: ScoreIn(root)(p) == Score(root, p);
  }

  /** The search.  `looked` are the files below the root that it looked at: a
      first part of the walk, all of it if the deadline does not pass. */
  method SearchForIcon(root: string, fs: FileSystem, patience: Option<nat>) returns (best: Best, ghost looked: seq<Path>)
    ensures root == "" || !fs.isDir([]) ==> best == Nothing
    ensures root != "" && fs.isDir([]) ==>
              var probed := BestOf(ScoreIn(root), Probe(fs));
              if probed.Found? && probed.score <= GOOD_ENOUGH then best == probed
              else && best == BestOf(ScoreIn(root), Probe(fs) + looked)
                   && looked <= Walk(fs)
                   && (patience.None? ==> looked == Walk(fs) && Optimal(best, ScoreIn(root), Probe(fs) + Walk(fs))
                                                     && LeastEligible(best, root, fs))
  {
    looked := [];
    if root == "" || !fs.isDir([]) {
      return Nothing, looked;
    }
    best := ProbeCandidateDirs(root, fs, QUICK_DIRS, CANDIDATES);
    if best.Found? && best.score <= GOOD_ENOUGH {
      return;
    }
    best, looked := WalkDirectories(root, fs, patience, best, Probe(fs));
    BestIsOptimal(ScoreIn(root), Probe(fs) + looked);
    if patience.None? {
      OptimalIsLeast(best, root, fs);
    }
  }

  method WalkDirectories(root: string, fs: FileSystem, patience: Option<nat>, start: Best, ghost probed: seq<Path>)
    returns (best: Best, ghost looked: seq<Path>)
    requires start == BestOf(ScoreIn(root), probed)
    ensures best == BestOf(ScoreIn(root), probed + looked)
    ensures looked <= Walk(fs) && (patience.None? ==> looked == Walk(fs))
  {
    TreeIsBounded(fs);
    ghost var f := Tree(fs);
    var queue := [DirQueueItem([], 0, true)];
    var left := patience;
    best, looked := start, [];
    assert Paths(queue) == [[]];
    assert probed + [] == probed;
    while queue != []
      invariant Bounded(f) && Sound(queue) && Shallow(f, Paths(queue))
      invariant patience.None? ==> left.None?
      invariant best == BestOf(ScoreIn(root), probed + looked)
      invariant looked + FilesIn(fs, Visits(f, Paths(queue))) == Walk(fs)
      decreases |Visits(f, Paths(queue))|
    {
      var stopped;
      ghost var before := Paths(queue);
      WalkStep(fs, before, looked);
      queue, best, left, stopped, looked := VisitNext(root, fs, queue, best, left, probed, looked);
      if stopped {
        return;
      }
    }
  }

  /** Takes one directory off the queue.  Where the program leaves the inner
      loop because of the time, the next reading of the clock ends the search;
      `stopped` stands for both. */
  method VisitNext(root: string, fs: FileSystem, queue: seq<DirQueueItem>, best: Best, left: Option<nat>,
                   ghost probed: seq<Path>, ghost looked: seq<Path>)
    returns (queue': seq<DirQueueItem>, best': Best, left': Option<nat>, stopped: bool, ghost looked': seq<Path>)
    requires queue != [] && Sound(queue) && best == BestOf(ScoreIn(root), probed + looked)
    ensures left.None? ==> left'.None? && !stopped
    ensures !stopped ==> && Sound(queue') && Paths(queue') == Advance(Tree(fs), Paths(queue))
                         && looked' == looked + Files(fs, queue[0].path)
    ensures looked' <= looked + Files(fs, queue[0].path)
    ensures best' == BestOf(ScoreIn(root), probed + looked')
  {
    var item := queue[0];
    queue', best', looked' := queue[1..], best, looked;
    assert Paths(queue') == Paths(queue)[1..];
    stopped, left' := Expired(left);
    if stopped {
      return;
    }
    var names := Listing(fs, item.path);   // empty when it cannot be opened
    ghost var n;
    queue', best', left', stopped, n := ReadDir(root, fs, item, names, queue', best, left', probed + looked);
    ghost var files := Select(item.path, names, Looked(fs, item.path), n);
    SelectGrows(item.path, names, Looked(fs, item.path), n, |names|);
    ConcatAssociates(probed, looked, files);
    looked' := looked + files;
  }
}
