/**
  What the score of a file means (src/gtk/project_icon_cache.c:22-60, 295-405):
  it depends on the kind of its name and on which well-known folders are above
  it, not on where they are.
 */
module IconScores {
  import opened Options
  import opened Sequences
  import opened IconSearch

  // ---- where a text occurs ----

  predicate OccursAt(s: string, p: string, k: nat) {
    k + |p| <= |s| && s[k..k + |p|] == p
  }

  lemma {:induction false} InfixIff(s: string, p: string)
    requires p != ""
    ensures HasInfix(s, p) <==> exists k: nat :: OccursAt(s, p, k)
  {
    if s != "" {
      InfixIff(s[1..], p);
      if HasPrefix(s, p) {
        assert OccursAt(s, p, 0);
      } else if k: nat :| OccursAt(s[1..], p, k) {
        assert s[k + 1..k + 1 + |p|] == s[1..][k..k + |p|];
        assert OccursAt(s, p, k + 1);
      }
      if k: nat :| OccursAt(s, p, k) && !HasPrefix(s, p) {
        assert s[1..][k - 1..k - 1 + |p|] == s[k..k + |p|];
        assert OccursAt(s[1..], p, k - 1);
      }
    }
  }

  /** A name, as no part of a path has a slash in it. */
  predicate IsName(s: string) {
    forall i :: 0 <= i < |s| ==> s[i] != '/'
  }

  lemma OccursChar(s: string, p: string, k: nat, i: nat)
    requires OccursAt(s, p, k) && i < |p|
    ensures s[k + i] == p[i]
  {
    assert s[k..k + |p|][i] == s[k + i];
  }

  /** What lies on one side of a seam. */
  lemma OccursInConcat(a: string, b: string, p: string, k: nat)
    ensures k + |p| <= |a| ==> (OccursAt(a + b, p, k) <==> OccursAt(a, p, k))
    ensures k >= |a| ==> (OccursAt(a + b, p, k) <==> OccursAt(b, p, k - |a|))
  {
    if k + |p| <= |a| {
      assert (a + b)[k..k + |p|] == a[k..k + |p|];
    }
    if k >= |a| && k + |p| <= |a + b| {
      assert (a + b)[k..k + |p|] == b[k - |a|..k - |a| + |p|];
    }
  }

  lemma OccursBefore(a: string, b: string, p: string)
    requires p != "" && HasInfix(a, p)
    ensures HasInfix(a + b, p)
  {
    InfixIff(a, p);
    var k: nat :| OccursAt(a, p, k);
    OccursInConcat(a, b, p, k);
    InfixIff(a + b, p);
  }

  /** A folder's name between slashes, at the end of a path or before. */
  lemma FolderOccurs(a: string, n: string, x: string)
    requires IsName(n) && IsName(x) && x != ""
    ensures HasInfix(a + "/" + n + "/", "/" + x + "/") <==> HasInfix(a + "/", "/" + x + "/") || n == x
  {
    var s, p := a + "/" + n + "/", "/" + x + "/";
    var b := n + "/";
    assert s == a + "/" + b;
    if HasInfix(a + "/", p) {
      OccursBefore(a + "/", b, p);
    }
    if n == x {
      assert s == a + p;
      OccursInConcat(a, p, p, |a|);
      assert OccursAt(p, p, 0);
      InfixIff(s, p);
    }
    if HasInfix(s, p) {
      InfixIff(s, p);
      var k: nat :| OccursAt(s, p, k);
      if k + |p| > |a| + 1 {
        LastFolder(a, n, x, k);
      } else {
        OccursInConcat(a + "/", b, p, k);
        InfixIff(a + "/", p);
      }
    }
  }

  lemma LastFolder(a: string, n: string, x: string, k: nat)
    requires IsName(n) && IsName(x)
    requires OccursAt(a + "/" + n + "/", "/" + x + "/", k) && k + |x| + 2 > |a| + 1
    ensures n == x
  {
    var s, p := a + "/" + n + "/", "/" + x + "/";
    forall i | 0 <= i < |p| ensures s[k + i] == p[i] {
      OccursChar(s, p, k, i);
    }
    assert s[k] == '/' && s[k + |x| + 1] == '/';
    assert forall i :: |a| < i <= |a| + |n| ==> s[i] == n[i - |a| - 1];
    assert k + |x| + 1 == |a| + |n| + 1;
    assert forall i :: 0 <= i < |x| ==> s[k + 1 + i] == x[i];
    assert s[|a|] == '/';
    assert k == |a|;
    assert forall i :: 0 <= i < |n| ==> n[i] == s[|a| + 1 + i] == x[i];
  }

  /** A text without a slash is on one side of the slash or the other. */
  lemma WordOccurs(a: string, n: string, x: string)
    requires IsName(x) && x != ""
    ensures HasInfix(a + "/" + n, x) <==> HasInfix(a, x) || HasInfix(n, x)
  {
    assert a + "/" + n == a + ("/" + n);
    if HasInfix(a, x) {
      OccursBefore(a, "/" + n, x);
    }
    InfixIff(a + "/" + n, x);
    if HasInfix(n, x) {
      InfixIff(n, x);
      var k: nat :| OccursAt(n, x, k);
      OccursInConcat(a + "/", n, x, |a| + 1 + k);
    }
    if k: nat :| OccursAt(a + "/" + n, x, k) {
      WordOnOneSide(a, n, x, k);
    }
  }

  lemma WordOnOneSide(a: string, n: string, x: string, k: nat)
    requires IsName(x) && x != "" && OccursAt(a + "/" + n, x, k)
    ensures HasInfix(a, x) || HasInfix(n, x)
  {
    NotAcross(a, n, x, k);
    if k + |x| <= |a| {
      assert a + "/" + n == a + ("/" + n);
      OccursInConcat(a, "/" + n, x, k);
      InfixIff(a, x);
    } else {
      OccursInConcat(a + "/", n, x, k);
      InfixIff(n, x);
    }
  }

  lemma NotAcross(a: string, n: string, x: string, k: nat)
    requires IsName(x) && OccursAt(a + "/" + n, x, k)
    ensures k + |x| <= |a| || |a| < k
  {
    if k <= |a| < k + |x| {
      OccursChar(a + "/" + n, x, k, |a| - k);
    }
  }

  /** A file's name has no part in where a folder's name occurs. */
  lemma FileOccurs(a: string, n: string, x: string)
    requires IsName(n) && x != ""
    ensures HasInfix(a + "/" + n, "/" + x + "/") <==> HasInfix(a + "/", "/" + x + "/")
  {
    var s, p := a + "/" + n, "/" + x + "/";
    if HasInfix(a + "/", p) {
      OccursBefore(a + "/", n, p);
    }
    InfixIff(s, p);
    InfixIff(a + "/", p);
    if k: nat :| OccursAt(s, p, k) {
      OccursChar(s, p, k, |p| - 1);
      assert k + |p| <= |a| + 1;
      OccursInConcat(a + "/", n, p, k);
    }
  }

  // ---- folders above a file, words in its path ----

  predicate AreNames(p: Path) {
    forall i :: 0 <= i < |p| ==> IsName(p[i])
  }

  lemma LowerNames(a: string, n: string)
    ensures Lower(a + "/" + n) == Lower(a) + "/" + Lower(n)
    ensures IsName(n) ==> IsName(Lower(n))
  {
  }

  /** A folder of that name, in whatever case, is in the root's path or among the
      folders. */
  predicate Under(root: string, folders: Path, x: string) {
    HasInfix(Lower(root) + "/", "/" + x + "/") || exists i :: 0 <= i < |folders| && Lower(folders[i]) == x
  }

  lemma {:induction false} FoldersOccur(root: string, folders: Path, x: string)
    requires AreNames(folders) && IsName(x) && x != ""
    ensures HasInfix(Lower(FullPath(root, folders)) + "/", "/" + x + "/") <==> Under(root, folders, x)
  {
    if folders != [] {
      var front, last := folders[..|folders| - 1], folders[|folders| - 1];
      FoldersOccur(root, front, x);
      LowerNames(FullPath(root, front), last);
      FolderOccurs(Lower(FullPath(root, front)), Lower(last), x);
      assert forall i :: 0 <= i < |front| ==> front[i] == folders[i];
    }
  }

  lemma UnderIff(root: string, folders: Path, name: string, x: string)
    requires AreNames(folders) && IsName(name) && IsName(x) && x != ""
    ensures HasInfix(Lower(FullPath(root, folders + [name])), "/" + x + "/") <==> Under(root, folders, x)
  {
    FoldersOccur(root, folders, x);
    assert (folders + [name])[..|folders|] == folders;
    LowerNames(FullPath(root, folders), name);
    FileOccurs(Lower(FullPath(root, folders)), Lower(name), x);
  }

  lemma UnderPattern(root: string, folders: Path, name: string, x: string, pattern: string)
    requires AreNames(folders) && IsName(name) && IsName(x) && x != "" && pattern == "/" + x + "/"
    ensures HasInfix(Lower(FullPath(root, folders + [name])), pattern) <==> Under(root, folders, x)
  {
    UnderIff(root, folders, name, x);
  }

  /** The word occurs in the root's path or in one of the names. */
  predicate Mentions(root: string, p: Path, word: string) {
    HasInfix(Lower(root), word) || exists i :: 0 <= i < |p| && HasInfix(Lower(p[i]), word)
  }

  lemma {:induction false} MentionsIff(root: string, p: Path, word: string)
    requires IsName(word) && word != ""
    ensures HasInfix(Lower(FullPath(root, p)), word) <==> Mentions(root, p, word)
  {
    if p != [] {
      var front, last := p[..|p| - 1], p[|p| - 1];
      MentionsIff(root, front, word);
      LowerNames(FullPath(root, front), last);
      WordOccurs(Lower(FullPath(root, front)), Lower(last), word);
      assert forall i :: 0 <= i < |front| ==> front[i] == p[i];
    }
  }

  // ---- names ----

  /** The favoured names are all covered by four beginnings. */
  lemma CandidateIff(name: string)
    ensures IsCandidate(name) <==>
            || HasPrefix(Lower(name), "favicon") || HasPrefix(Lower(name), "icon")
            || HasPrefix(Lower(name), "logo") || HasPrefix(Lower(name), "apple-touch-icon")
  {
    if i :| 0 <= i < |CANDIDATES| && EqualCi(name, CANDIDATES[i]) {
      CandidateBegins(i);
    }
  }

  lemma CandidateBegins(i: nat)
    requires i < |CANDIDATES|
    ensures CANDIDATES[i] != "" && Lower(CANDIDATES[i]) == CANDIDATES[i]
    ensures HasPrefix(CANDIDATES[i], "favicon") || HasPrefix(CANDIDATES[i], "icon")
         || HasPrefix(CANDIDATES[i], "logo") || HasPrefix(CANDIDATES[i], "apple-touch-icon")
  {
    if i < 4 {
      Favicons(i);
    } else if i < 6 {
      TouchIcons(i);
    } else {
      IconsAndLogos(i);
    }
  }

  lemma Favicons(i: nat)
    requires i < 4
    ensures Lower(CANDIDATES[i]) == CANDIDATES[i] && HasPrefix(CANDIDATES[i], "favicon")
  {
  }

  lemma TouchIcons(i: nat)
    requires 4 <= i < 6
    ensures Lower(CANDIDATES[i]) == CANDIDATES[i] && HasPrefix(CANDIDATES[i], "apple-touch-icon")
  {
  }

  lemma IconsAndLogos(i: nat)
    requires 6 <= i < 12
    ensures Lower(CANDIDATES[i]) == CANDIDATES[i]
    ensures HasPrefix(CANDIDATES[i], "icon") || HasPrefix(CANDIDATES[i], "logo")
  {
  }

  /** The first of the favoured names that a name is, or none. */
  ghost predicate IsFavoured(name: string, i: nat) {
    i < |CANDIDATES| && EqualCi(name, CANDIDATES[i]) && forall k :: 0 <= k < i ==> !EqualCi(name, CANDIDATES[k])
  }

  lemma {:induction false} RankFromIs(name: string, from: nat, i: nat)
    requires from <= i < |CANDIDATES| && EqualCi(name, CANDIDATES[i])
    requires forall k :: from <= k < i ==> !EqualCi(name, CANDIDATES[k])
    ensures RankFrom(name, from) == 10 * i
    decreases |CANDIDATES| - from
  {
    if from < i {
      RankFromIs(name, from + 1, i);
    }
  }

  lemma {:induction false} RankFromNone(name: string, from: nat)
    requires from <= |CANDIDATES|
    requires forall k :: from <= k < |CANDIDATES| ==> !EqualCi(name, CANDIDATES[k])
    ensures RankFrom(name, from) == if IsCandidate(name) then 140 else 220
    decreases |CANDIDATES| - from
  {
    if from < |CANDIDATES| {
      RankFromNone(name, from + 1);
    }
  }

  /** The extension is what follows the last dot. */
  lemma {:induction false} ExtensionIs(stem: string, ext: string)
    requires forall i :: 0 <= i < |ext| ==> ext[i] != '.'
    ensures Extension(stem + "." + ext) == Some(ext)
  {
    if stem == "" {
      assert (stem + "." + ext)[1..] == ext;
      NoExtension(ext);
    } else {
      assert (stem + "." + ext)[1..] == stem[1..] + "." + ext;
      ExtensionIs(stem[1..], ext);
    }
  }

  lemma {:induction false} NoExtension(s: string)
    requires forall i :: 0 <= i < |s| ==> s[i] != '.'
    ensures Extension(s) == None
  {
    if s != "" {
      NoExtension(s[1..]);
    }
  }

  /** A name is an image's by what follows its last dot, in whatever case. */
  lemma ImageIff(stem: string, ext: string)
    requires forall i :: 0 <= i < |ext| ==> ext[i] != '.'
    ensures IsImage(stem + "." + ext) <==>
            Lower(ext) == "png" || Lower(ext) == "svg" || Lower(ext) == "ico" || Lower(ext) == "webp"
    ensures !IsImage(ext)
  {
    ExtensionIs(stem, ext);
    NoExtension(ext);
    var kinds := ["png", "svg", "ico", "webp"];
    assert forall i :: 0 <= i < 4 ==> Lower(kinds[i]) == kinds[i];
    assert InListCi(ext, kinds) <==> Lower(ext) in kinds by {
      if Lower(ext) in kinds {
        var i :| 0 <= i < 4 && kinds[i] == Lower(ext);
        assert EqualCi(ext, kinds[i]);
      }
    }
  }

  // ---- scores ----

  /** What the folders above a file are worth. */
  function Bonus(root: string, folders: Path): nat {
    (if Under(root, folders, "public") then 35 else 0)
    + (if Under(root, folders, "assets") then 28 else 0)
    + (if Under(root, folders, "static") then 20 else 0)
    + (if Under(root, folders, "icons") || Under(root, folders, "icon") then 18 else 0)
    + (if Under(root, folders, "img") || Under(root, folders, "images") then 14 else 0)
    + (if Under(root, folders, "logo") || Under(root, folders, "logos") then 10 else 0)
  }

  function Malus(root: string, p: Path): nat {
    if Mentions(root, p, "dark") || Mentions(root, p, "light") then 8 else 0
  }

  lemma PathRankIs(root: string, folders: Path, name: string)
    requires AreNames(folders) && IsName(name)
    ensures PathRank(FullPath(root, folders + [name])) == Malus(root, folders + [name]) - Bonus(root, folders)
  {
    PlacesCount(root, folders, name);
    ImagesCount(root, folders, name);
    MentionsIff(root, folders + [name], "dark");
    MentionsIff(root, folders + [name], "light");
  }

  lemma PlacesCount(root: string, folders: Path, name: string)
    requires AreNames(folders) && IsName(name)
    ensures var p := Lower(FullPath(root, folders + [name]));
            && (HasInfix(p, "/public/") <==> Under(root, folders, "public"))
            && (HasInfix(p, "/assets/") <==> Under(root, folders, "assets"))
            && (HasInfix(p, "/static/") <==> Under(root, folders, "static"))
  {
    UnderPattern(root, folders, name, "public", "/public/");
    UnderPattern(root, folders, name, "assets", "/assets/");
    UnderPattern(root, folders, name, "static", "/static/");
  }

  lemma ImagesCount(root: string, folders: Path, name: string)
    requires AreNames(folders) && IsName(name)
    ensures var p := Lower(FullPath(root, folders + [name]));
            && (HasInfix(p, "/icons/") <==> Under(root, folders, "icons"))
            && (HasInfix(p, "/icon/") <==> Under(root, folders, "icon"))
            && (HasInfix(p, "/img/") <==> Under(root, folders, "img"))
            && (HasInfix(p, "/images/") <==> Under(root, folders, "images"))
            && (HasInfix(p, "/logo/") <==> Under(root, folders, "logo"))
            && (HasInfix(p, "/logos/") <==> Under(root, folders, "logos"))
  {
    UnderPattern(root, folders, name, "icons", "/icons/");
    UnderPattern(root, folders, name, "icon", "/icon/");
    UnderPattern(root, folders, name, "img", "/img/");
    UnderPattern(root, folders, name, "images", "/images/");
    UnderPattern(root, folders, name, "logo", "/logo/");
    UnderPattern(root, folders, name, "logos", "/logos/");
  }

  /** What a name is worth: ten for each favoured name before it; 140 for another
      that begins like one; 220 for the rest. */
  lemma NameRankIs(name: string, i: nat)
    ensures IsFavoured(name, i) ==> BasenameRank(name) == 10 * i
    ensures (forall k: nat :: !IsFavoured(name, k)) ==> BasenameRank(name) == if IsCandidate(name) then 140 else 220
  {
    if IsFavoured(name, i) {
      RankFromIs(name, 0, i);
    }
    if k :| 0 <= k < |CANDIDATES| && EqualCi(name, CANDIDATES[k]) {
      FirstFavoured(name, k);
    } else {
      RankFromNone(name, 0);
    }
  }

  lemma {:induction false} FirstFavoured(name: string, k: nat)
    requires k < |CANDIDATES| && EqualCi(name, CANDIDATES[k])
    ensures exists i: nat :: IsFavoured(name, i)
  {
    if j :| 0 <= j < k && EqualCi(name, CANDIDATES[j]) {
      FirstFavoured(name, j);
    } else {
      assert IsFavoured(name, k);
    }
  }

  /** An image has a score when its name begins like an icon's, or when the
      folders above it outweigh the words in its path; and the score is what its
      name is worth, less what the folders are worth. */
  lemma ScoreIs(root: string, folders: Path, name: string)
    requires AreNames(folders) && IsName(name)
    ensures var (p, s) := (folders + [name], Score(root, folders + [name]));
            && (s.Some? <==> IsImage(name) && (IsCandidate(name) || Bonus(root, folders) > Malus(root, p)))
            && (s.Some? ==> s.value == BasenameRank(name) - Bonus(root, folders) + Malus(root, p))
  {
    PathRankIs(root, folders, name);
  }

  /** In one folder, of two images whose paths say the same about dark and light,
      the one whose name is favoured first is preferred. */
  lemma FavouredFirst(root: string, folders: Path, a: string, b: string, i: nat, j: nat)
    requires AreNames(folders) && IsName(a) && IsName(b) && IsImage(a) && IsImage(b)
    requires IsFavoured(a, i) && (if IsFavoured(b, j) then i < j else forall k: nat :: !IsFavoured(b, k))
    requires Malus(root, folders + [a]) <= Malus(root, folders + [b])
    ensures var (s, t) := (Score(root, folders + [a]), Score(root, folders + [b]));
            s.Some? && (t.Some? ==> s.value < t.value)
  {
    ScoreIs(root, folders, a);
    ScoreIs(root, folders, b);
    NameRankIs(a, i);
    NameRankIs(b, j);
    CandidateBegins(i);
    CandidateIff(a);
  }
}
