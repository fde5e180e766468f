/**
  Looking for a project's icon (src/gtk/project_icon_cache.c:22-86, 295-526): a
  few well-known places first, then the directories below the root, breadth
  first, until the time is up.  The file system is a parameter.
 */
module IconSearch {
  import opened IconQueue
  import opened Options
  import opened Sequences

  /** The names that lead from the root to a file or directory. */
  type Path = seq<string>

  /** What the searches ask the file system; directories that cannot be read
      have no names.  Links may make the directory graph cyclic. */
  datatype FileSystem = FileSystem(
    isDir: Path -> bool,
    present: Path -> bool,
    names: Path -> Option<seq<string>>)

  const SHALLOW_DEPTH: int := 3

  const CANDIDATES: seq<string> := [
    "favicon.ico", "favicon.png", "favicon.svg", "favicon.webp",
    "apple-touch-icon.png", "apple-touch-icon-precomposed.png",
    "icon.svg", "icon.png", "icon.ico", "logo.svg", "logo.png", "logo.ico"]

  const PREFERRED: seq<string> := [
    "public", "assets", "asset", "static", "img", "image", "images", "icon", "icons", "logo", "logos"]

  const PRUNED: seq<string> := [
    ".git", ".hg", ".svn", "node_modules", "vendor", "dist", "build", ".next", ".nuxt", ".cache", ".turbo",
    ".yarn", ".pnpm-store", "coverage", "target", "tmp", "temp", ".venv", "venv", "__pycache__"]

  const QUICK_DIRS: seq<Path> := [
    [], ["public"], ["public", "icons"], ["public", "img"], ["public", "images"],
    ["assets"], ["assets", "icons"], ["assets", "img"], ["assets", "images"],
    ["static"], ["icons"], ["img"], ["images"], ["logo"], ["logos"]]

  // ---- names ----

  function Lower(s: string): (r: string)
    ensures |r| == |s|
  {
    seq(|s|, i requires 0 <= i < |s| => if 'A' <= s[i] <= 'Z' then s[i] - 'A' + 'a' else s[i])
  }

  predicate EqualCi(a: string, b: string) {
    Lower(a) == Lower(b)
  }

  predicate InListCi(name: string, list: seq<string>) {
    exists i :: 0 <= i < |list| && EqualCi(name, list[i])
  }

  predicate HasPrefix(s: string, p: string) {
    |p| <= |s| && s[..|p|] == p
  }

  predicate HasInfix(s: string, p: string) {
    s != "" && (HasPrefix(s, p) || HasInfix(s[1..], p))
  }

  /** What follows the last dot. */
  function Extension(name: string): Option<string> {
    if name == "" then None
    else if Extension(name[1..]).Some? then Extension(name[1..])
    else if name[0] == '.' then Some(name[1..])
    else None
  }

  predicate IsImage(name: string) {
    Extension(name).Some? && InListCi(Extension(name).value, ["png", "svg", "ico", "webp"])
  }

  predicate IsCandidate(name: string) {
    && name != ""
    && (InListCi(name, CANDIDATES)
        || HasPrefix(Lower(name), "favicon") || HasPrefix(Lower(name), "icon")
        || HasPrefix(Lower(name), "logo") || HasPrefix(Lower(name), "apple-touch-icon"))
  }

  predicate Hidden(name: string) {
    name != "" && name[0] == '.'
  }

  // ---- scores ----

  function FullPath(root: string, p: Path): string {
    if p == [] then root else FullPath(root, p[..|p| - 1]) + "/" + p[|p| - 1]
  }

  function RankFrom(name: string, i: nat): int
    requires i <= |CANDIDATES|
    decreases |CANDIDATES| - i
  {
    if i == |CANDIDATES| then if IsCandidate(name) then 140 else 220
    else if EqualCi(name, CANDIDATES[i]) then i * 10
    else RankFrom(name, i + 1)
  }

  function BasenameRank(name: string): int {
    RankFrom(name, 0)
  }

  function PathRank(fullPath: string): int {
    var p := Lower(fullPath);
    (if HasInfix(p, "/public/") then -35 else 0)
    + (if HasInfix(p, "/assets/") then -28 else 0)
    + (if HasInfix(p, "/static/") then -20 else 0)
    + (if HasInfix(p, "/icons/") || HasInfix(p, "/icon/") then -18 else 0)
    + (if HasInfix(p, "/img/") || HasInfix(p, "/images/") then -14 else 0)
    + (if HasInfix(p, "/logo/") || HasInfix(p, "/logos/") then -10 else 0)
    + (if HasInfix(p, "dark") || HasInfix(p, "light") then 8 else 0)
  }

  /** A file's score, the lower the better; None for what is no icon. */
  function Score(root: string, p: Path): Option<int> {
    if p == [] || !IsImage(p[|p| - 1]) then None
    else if !IsCandidate(p[|p| - 1]) && PathRank(FullPath(root, p)) >= 0 then None
    else Some(BasenameRank(p[|p| - 1]) + PathRank(FullPath(root, p)))
  }

  datatype Best = Nothing | Found(path: Path, score: int)

  type Scorer = Path -> Option<int>

  /** The score of the paths below a root. */
  function ScoreIn(root: string): Scorer {
    p => Score(root, p)
  }

  function Consider(b: Best, score: Scorer, p: Path): Best {
    var s := score(p);
    if s.Some? && (b.Nothing? || s.value < b.score) then Found(p, s.value) else b
  }

  /** The best of a list, seen from front to back. */
  function BestOf(score: Scorer, files: seq<Path>): Best {
    if files == [] then Nothing else Consider(BestOf(score, files[..|files| - 1]), score, files[|files| - 1])
  }

  /** No file has a lower score, and none before it has the same. */
  predicate LeastAt(score: Scorer, files: seq<Path>, i: nat) {
    && i < |files| && score(files[i]).Some?
    && forall j :: 0 <= j < |files| && score(files[j]).Some? ==>
         score(files[i]).value <= score(files[j]).value && (j < i ==> score(files[i]).value < score(files[j]).value)
  }

  /** Keeping the best so far finds the first of the files of least score, or
      nothing exactly when no file has a score. */
  lemma {:induction false} BestIsFirstMinimum(score: Scorer, files: seq<Path>) returns (i: nat)
    ensures var b := BestOf(score, files);
            && (b.Nothing? <==> forall j :: 0 <= j < |files| ==> score(files[j]).None?)
            && (b.Found? ==> LeastAt(score, files, i) && b == Found(files[i], score(files[i]).value))
  {
    if files == [] {
      i := 0;
    } else {
      var n := |files| - 1;
      var front, last := files[..n], score(files[n]);
      i := BestIsFirstMinimum(score, front);
      var b := BestOf(score, front);
      assert forall j :: 0 <= j < n ==> front[j] == files[j];
      if last.Some? && (b.Nothing? || last.value < b.score) {
        i := n;
      }
    }
  }

  // ---- one directory ----

  /** The paths of those among the first `n` names that are to be kept. */
  function Select(dir: Path, names: seq<string>, keep: string -> bool, n: nat): (r: seq<Path>)
    requires n <= |names|
    ensures forall q :: q in r ==> |q| == |dir| + 1
  {
    if n == 0 then []
    else Select(dir, names, keep, n - 1) + if keep(names[n - 1]) then [dir + [names[n - 1]]] else []
  }

  lemma {:induction false} Selected(dir: Path, names: seq<string>, keep: string -> bool, n: nat, q: Path)
    requires n <= |names|
    ensures q in Select(dir, names, keep, n) <==>
            exists i :: 0 <= i < n && keep(names[i]) && q == dir + [names[i]]
  {
    if n > 0 {
      Selected(dir, names, keep, n - 1, q);
    }
  }

  // ---- the well-known places ----

  function Present(fs: FileSystem, dir: Path): string -> bool {
    name => fs.present(dir + [name])
  }

  /** The candidates that are there in the first `n` of some directories. */
  function ProbeDirs(fs: FileSystem, dirs: seq<Path>, names: seq<string>, n: nat): seq<Path>
    requires n <= |dirs|
  {
    if n == 0 then []
    else
      ProbeDirs(fs, dirs, names, n - 1) +
      if fs.isDir(dirs[n - 1]) then Select(dirs[n - 1], names, Present(fs, dirs[n - 1]), |names|) else []
  }

  function Probe(fs: FileSystem): seq<Path> {
    ProbeDirs(fs, QUICK_DIRS, CANDIDATES, |QUICK_DIRS|)
  }

  // ---- entries ----

  /** Whether the search goes into an entry; the depth limit of SHALLOW_DEPTH
      applies outside a preferred context only. */
  predicate Enters(fs: FileSystem, dir: Path, preferred: bool, name: string) {
    && !Hidden(name) && fs.isDir(dir + [name]) && !InListCi(name, PRUNED)
    && (|dir| < SHALLOW_DEPTH || preferred || InListCi(name, PREFERRED))
    && |dir| + 1 <= MAX_DEPTH
  }

  /** Whether the search looks at an entry as a possible icon. */
  predicate LooksAt(fs: FileSystem, dir: Path, preferred: bool, name: string) {
    !Hidden(name) && !fs.isDir(dir + [name]) && (preferred || |dir| <= 1 || IsCandidate(name))
  }

  function Listing(fs: FileSystem, dir: Path): seq<string> {
    if fs.names(dir).Some? then fs.names(dir).value else []
  }

  function Entered(fs: FileSystem, dir: Path): string -> bool {
    name => Enters(fs, dir, true, name)
  }

  function Looked(fs: FileSystem, dir: Path): string -> bool {
    name => LooksAt(fs, dir, true, name)
  }

  function Children(fs: FileSystem, dir: Path): (r: seq<Path>)
    ensures forall q :: q in r ==> |q| == |dir| + 1
  {
    Select(dir, Listing(fs, dir), Entered(fs, dir), |Listing(fs, dir)|)
  }

  function Files(fs: FileSystem, dir: Path): seq<Path> {
    Select(dir, Listing(fs, dir), Looked(fs, dir), |Listing(fs, dir)|)
  }

  // ---- the walk ----

  /** The directories below the root that the search goes into.  The queue's
      first item has the preferred context, and every child inherits it, so all
      of them have it. */
  function Tree(fs: FileSystem): Forest<Path> {
    Forest(dir => Children(fs, dir), (p: Path) => if p == [] then [] else p[..|p| - 1], (p: Path) => |p|)
  }

  lemma SelectedAll(dir: Path, names: seq<string>, keep: string -> bool, p: Path)
    ensures p in Select(dir, names, keep, |names|) <==>
            p != [] && p[..|p| - 1] == dir && p[|p| - 1] in names && keep(p[|p| - 1])
  {
    Selected(dir, names, keep, |names|, p);
    if p != [] && p[..|p| - 1] == dir && p[|p| - 1] in names && keep(p[|p| - 1]) {
      var i :| 0 <= i < |names| && names[i] == p[|p| - 1];
      assert keep(names[i]) && p == dir + [names[i]];
    }
  }

  lemma EntersShallow(fs: FileSystem, dir: Path, name: string)
    ensures Entered(fs, dir)(name) ==> |dir| + 1 <= MAX_DEPTH
  {
  }

  lemma ChildrenAreBounded(fs: FileSystem, dir: Path, p: Path)
    requires p in Children(fs, dir)
    ensures p != [] && p[..|p| - 1] == dir && |p| == |dir| + 1 <= MAX_DEPTH
  {
    SelectedAll(dir, Listing(fs, dir), Entered(fs, dir), p);
    EntersShallow(fs, dir, p[|p| - 1]);
  }

  lemma TreeIsBounded(fs: FileSystem)
    ensures Bounded(Tree(fs)) && Shallow(Tree(fs), [[]])
  {
    forall dir, p | p in Tree(fs).children(dir)
      ensures Tree(fs).parent(p) == dir && Tree(fs).depth(p) == Tree(fs).depth(dir) + 1 <= MAX_DEPTH
    {
      ChildrenAreBounded(fs, dir, p);
    }
  }

  function FilesIn(fs: FileSystem, dirs: seq<Path>): seq<Path> {
    if dirs == [] then [] else Files(fs, dirs[0]) + FilesIn(fs, dirs[1..])
  }

  /** All files the walk looks at, in order. */
  ghost function Walk(fs: FileSystem): seq<Path> {
    TreeIsBounded(fs);
    FilesIn(fs, Visits(Tree(fs), [[]]))
  }

  /** A path of directories below the root, none of them hidden or pruned and
      not too deep. */
  predicate Open(fs: FileSystem, p: Path)
    decreases |p|
  {
    p == [] ||
    var dir, name := p[..|p| - 1], p[|p| - 1];
    && |p| <= MAX_DEPTH
    && name in Listing(fs, dir) && fs.isDir(p) && !HasPrefix(name, ".") && Lower(name) !in PRUNED
    && Open(fs, dir)
  }

  lemma EntersOpen(fs: FileSystem, p: Path)
    requires p != []
    ensures Open(fs, p) <==>
            && Open(fs, p[..|p| - 1])
            && p[|p| - 1] in Listing(fs, p[..|p| - 1]) && Entered(fs, p[..|p| - 1])(p[|p| - 1])
  {
    assert p[..|p| - 1] + [p[|p| - 1]] == p;
    HiddenIff(p[|p| - 1]);
    PrunedIff(p[|p| - 1]);
  }

  lemma HiddenIff(name: string)
    ensures Hidden(name) <==> HasPrefix(name, ".")
  {
  }

  /** ASCII letters become small ones, all else stays. */
  lemma LowerIs(s: string, i: nat)
    requires i < |s|
    ensures 0x41 <= s[i] as int <= 0x5a ==> Lower(s)[i] as int == s[i] as int + 0x20
    ensures s[i] as int < 0x41 || s[i] as int > 0x5a ==> Lower(s)[i] == s[i]
  {
  }

  lemma PrunedIff(name: string)
    ensures InListCi(name, PRUNED) <==> Lower(name) in PRUNED
  {
    forall i | 0 <= i < |PRUNED| ensures Lower(PRUNED[i]) == PRUNED[i] {
      PrunedAreLower(i);
    }
    if Lower(name) in PRUNED {
      var i :| 0 <= i < |PRUNED| && PRUNED[i] == Lower(name);
      assert EqualCi(name, PRUNED[i]);
    }
  }

  lemma PrunedAreLower(i: nat)
    requires i < |PRUNED|
    ensures Lower(PRUNED[i]) == PRUNED[i]
  {
    if i < 5 {
      assert Lower(PRUNED[i]) == PRUNED[i];
    } else if i < 10 {
      assert Lower(PRUNED[i]) == PRUNED[i];
    } else if i < 15 {
      assert Lower(PRUNED[i]) == PRUNED[i];
    }
  }

  lemma {:induction false} ReachableIsOpen(fs: FileSystem, p: Path)
    ensures Reachable(Tree(fs), [], p) <==> Open(fs, p)
    decreases |p|
  {
    if p != [] {
      var dir := p[..|p| - 1];
      SelectedAll(dir, Listing(fs, dir), Entered(fs, dir), p);
      EntersOpen(fs, p);
      ReachableIsOpen(fs, dir);
    }
  }

  /** With time enough the search visits exactly the open directories: whether
      one has a preferred name makes no difference, and neither does
      SHALLOW_DEPTH. */
  lemma VisitsTheOpenDirectories(fs: FileSystem, p: Path)
    ensures Bounded(Tree(fs)) && Shallow(Tree(fs), [[]])
    ensures p in Visits(Tree(fs), [[]]) <==> Open(fs, p)
  {
    TreeIsBounded(fs);
    VisitsExactlyTheReachable(Tree(fs), [], p);
    ReachableIsOpen(fs, p);
  }

  lemma {:induction false} SelectDistinct(dir: Path, names: seq<string>, keep: string -> bool, n: nat)
    requires n <= |names| && Distinct(names)
    ensures Distinct(Select(dir, names, keep, n))
  {
    if n > 0 {
      SelectDistinct(dir, names, keep, n - 1);
      var front, q := Select(dir, names, keep, n - 1), dir + [names[n - 1]];
      Selected(dir, names, keep, n - 1, q);
      assert q[|dir|] == names[n - 1];
      DistinctParts(front, [q]);
    }
  }

  /** ... each of them once, if no directory lists a name twice. */
  lemma VisitsEachOnce(fs: FileSystem)
    requires forall dir :: Distinct(Listing(fs, dir))
    ensures Bounded(Tree(fs)) && Shallow(Tree(fs), [[]]) && Distinct(Visits(Tree(fs), [[]]))
  {
    TreeIsBounded(fs);
    forall dir ensures Distinct(Tree(fs).children(dir)) {
      SelectDistinct(dir, Listing(fs, dir), Entered(fs, dir), |Listing(fs, dir)|);
    }
    VisitsOnce(Tree(fs), []);
  }

  // ---- the files that are looked at ----

  /** An existing candidate in one of the well-known places. */
  predicate IsQuick(fs: FileSystem, p: Path) {
    && p != []
    && p[..|p| - 1] in QUICK_DIRS && fs.isDir(p[..|p| - 1])
    && p[|p| - 1] in CANDIDATES && fs.present(p)
  }

  /** A listed, unhidden file in a directory the search goes into. */
  predicate IsBelow(fs: FileSystem, p: Path) {
    && p != []
    && Open(fs, p[..|p| - 1]) && p[|p| - 1] in Listing(fs, p[..|p| - 1])
    && !HasPrefix(p[|p| - 1], ".") && !fs.isDir(p)
  }

  lemma {:induction false} ProbedIn(fs: FileSystem, dirs: seq<Path>, names: seq<string>, n: nat, p: Path)
    requires n <= |dirs|
    ensures p in ProbeDirs(fs, dirs, names, n) <==>
            p != [] && p[..|p| - 1] in dirs[..n] && fs.isDir(p[..|p| - 1]) && p[|p| - 1] in names && fs.present(p)
  {
    if n > 0 {
      ProbedIn(fs, dirs, names, n - 1, p);
      SelectedAll(dirs[n - 1], names, Present(fs, dirs[n - 1]), p);
      assert dirs[..n] == dirs[..n - 1] + [dirs[n - 1]];
      assert p != [] ==> p[..|p| - 1] + [p[|p| - 1]] == p;
    }
  }

  /** The first, quick part of the search looks for exactly these. */
  lemma ProbeIff(fs: FileSystem, p: Path)
    ensures p in Probe(fs) <==> IsQuick(fs, p)
  {
    ProbedIn(fs, QUICK_DIRS, CANDIDATES, |QUICK_DIRS|, p);
    assert QUICK_DIRS[..|QUICK_DIRS|] == QUICK_DIRS;
  }

  lemma FilesIff(fs: FileSystem, dir: Path, p: Path)
    ensures p in Files(fs, dir) <==>
            p != [] && p[..|p| - 1] == dir && p[|p| - 1] in Listing(fs, dir) && !Hidden(p[|p| - 1]) && !fs.isDir(p)
  {
    if p != [] && p[..|p| - 1] == dir {
      assert p == dir + [p[|p| - 1]];
      FileIff(fs, dir, p[|p| - 1]);
    } else {
      NotFiles(fs, dir, p);
    }
  }

  lemma NotFiles(fs: FileSystem, dir: Path, p: Path)
    requires p == [] || p[..|p| - 1] != dir
    ensures p !in Files(fs, dir)
  {
    SelectedAll(dir, Listing(fs, dir), Looked(fs, dir), p);
  }

  lemma FileIff(fs: FileSystem, dir: Path, name: string)
    ensures dir + [name] in Files(fs, dir) <==> name in Listing(fs, dir) && !Hidden(name) && !fs.isDir(dir + [name])
  {
    SelectedAll(dir, Listing(fs, dir), Looked(fs, dir), dir + [name]);
  }

  lemma {:induction false} FilesInIff(fs: FileSystem, dirs: seq<Path>, p: Path)
    ensures p in FilesIn(fs, dirs) <==> p != [] && p[..|p| - 1] in dirs && p in Files(fs, p[..|p| - 1])
  {
    if dirs != [] {
      FilesInIff(fs, dirs[1..], p);
      FilesIff(fs, dirs[0], p);
      assert dirs == [dirs[0]] + dirs[1..];
    }
  }

  /** The walk looks at exactly these: the depth and the name of a file make no
      difference, because every directory has the preferred context. */
  lemma WalkIff(fs: FileSystem, p: Path)
    ensures p in Walk(fs) <==> IsBelow(fs, p)
  {
    TreeIsBounded(fs);
    FilesInIff(fs, Visits(Tree(fs), [[]]), p);
    if p != [] {
      FilesIff(fs, p[..|p| - 1], p);
      HiddenIff(p[|p| - 1]);
      VisitsTheOpenDirectories(fs, p[..|p| - 1]);
    }
  }
}
