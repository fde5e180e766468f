/**
  The project a path belongs to (src/gtk/project_icon_cache.c:249-293): the
  nearest directory upwards with a project marker, else the nearest with a hint
  of an icon, else the directory itself.
 */
module IconRoot {
  import opened Options

  type Path = seq<string>

  /** The longest prefix of a path with a property has length `n`. */
  ghost predicate Nearest(dir: Path, has: Path -> bool, n: nat) {
    && n <= |dir| && has(dir[..n])
    && forall k :: n < k <= |dir| ==> !has(dir[..k])
  }

  ghost predicate Nowhere(dir: Path, has: Path -> bool) {
    forall k :: 0 <= k <= |dir| ==> !has(dir[..k])
  }

  /** `dir` is canonical and exists; None for the directories that get no icon. */
  method RootForPath(dir: Path, emojiOnly: Path -> bool, marker: Path -> bool, hint: Path -> bool)
    returns (root: Option<Path>)
    ensures root.None? <==> emojiOnly(dir)
    ensures root.Some? ==> root.value <= dir
    ensures root.Some? && !Nowhere(dir, marker) ==> Nearest(dir, marker, |root.value|)
    ensures root.Some? && Nowhere(dir, marker) && !Nowhere(dir, hint) ==> Nearest(dir, hint, |root.value|)
    ensures root.Some? && Nowhere(dir, marker) && Nowhere(dir, hint) ==> root.value == dir
  {
    if emojiOnly(dir) {
      return None;
    }
    var hintRoot: Option<Path> := None;
    var cursor := dir;
    while true
      invariant cursor <= dir
      invariant forall k :: |cursor| < k <= |dir| ==> !marker(dir[..k])
      invariant hintRoot.None? ==> forall k :: |cursor| < k <= |dir| ==> !hint(dir[..k])
      invariant hintRoot.Some? ==> hintRoot.value <= dir && Nearest(dir, hint, |hintRoot.value|)
      decreases |cursor|
    {
      assert cursor == dir[..|cursor|];
      if marker(cursor) {
        return Some(cursor);
      }
      if hintRoot.None? && hint(cursor) {
        hintRoot := Some(cursor);
      }
      if cursor == [] {
        return if hintRoot.Some? then hintRoot else Some(dir);
      }
      cursor := cursor[..|cursor| - 1];
    }
  }
}
