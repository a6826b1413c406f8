/** A directory tree below one root, as the operating system keeps it: the files
    with their contents and the set of directories, each named by its path below
    the root. The root itself always exists and is a directory. */
module FileTree {
  import opened Paths
  import opened Outcomes

  datatype Tree<E> = Tree(files: map<Path, E>, dirs: set<Path>) {

    predicate IsDir(p: Path) {
      p == [] || p in dirs
    }

    predicate Exists(p: Path) {
      IsDir(p) || p in files
    }

    /** Every entry below the root: what iterdir, glob and os.walk can yield. */
    function Entries(): set<Path> {
      files.Keys + dirs
    }

    /** A real tree: no path is both a file and a directory, entries are named by
        well-formed names, and every ancestor of an entry is a directory. */
    ghost predicate Valid() {
      && [] !in files && [] !in dirs
      && (forall p :: p in files ==> p !in dirs)
      && (forall p :: p in files ==> IsRelPath(p) && AncestorsAreDirs(p))
      && (forall p :: p in dirs ==> IsRelPath(p) && AncestorsAreDirs(p))
    }

    ghost predicate AncestorsAreDirs(p: Path) {
      forall i :: 0 < i < |p| ==> p[..i] in dirs
    }
  }

  /** `walk` lists every path of `entries` exactly once, in the order the
      operating system chose. */
  ghost predicate Enumerates(walk: seq<Path>, entries: set<Path>) {
    && (forall p :: p in walk <==> p in entries)
    && (forall i, j :: 0 <= i < j < |walk| ==> walk[i] != walk[j])
  }

  /** The directories `mkdir(parents=True)` creates for `d`. */
  function Prefixes(d: Path): set<Path> {
    set i | 0 < i <= |d| :: d[..i]
  }

  /** `path.mkdir(parents=True, exist_ok=True)`: fails when the path or one of
      its ancestors is a file; otherwise the path and all its ancestors are
      directories afterwards and nothing else changes. */
  function MakeDirs<E>(t: Tree<E>, d: Path): (r: Option<Tree<E>>)
    ensures r.None? <==> exists i :: 0 < i <= |d| && d[..i] in t.files
    ensures r.Some? ==> r.value.files == t.files && r.value.IsDir(d)
    ensures r.Some? ==> forall i :: 0 < i <= |d| ==> r.value.IsDir(d[..i])
    ensures r.Some? ==> t.dirs <= r.value.dirs && r.value.dirs - t.dirs <= Prefixes(d)
    ensures r.Some? && t.Valid() && IsRelPath(d) ==> r.value.Valid()
  {
    if exists i :: 0 < i <= |d| && d[..i] in t.files then None
    else
      var r := Tree(t.files, t.dirs + Prefixes(d));
      assert |d| > 0 ==> d[..|d|] in Prefixes(d) && d[..|d|] == d;
      assert forall i :: 0 < i <= |d| ==> d[..i] in Prefixes(d);
      assert t.Valid() && IsRelPath(d) ==> r.Valid() by {
        if t.Valid() && IsRelPath(d) {
          forall q | q in Prefixes(d)
            ensures IsRelPath(q) && r.AncestorsAreDirs(q) && q !in r.files && q != []
          {
            var i :| 0 < i <= |d| && q == d[..i];
            forall j | 0 < j < |q| ensures q[..j] in r.dirs {
              assert q[..j] == d[..j];
            }
          }
        }
      }
      Some(r)
  }

  /** Writing a file (`write_bytes`, an image `save`): fails when the target is
      a directory or its parent is not one; otherwise the target holds `e`
      (replacing what it held) and nothing else changes. */
  function WriteFile<E>(t: Tree<E>, p: Path, e: E): (r: Option<Tree<E>>)
    ensures r.Some? <==> |p| > 0 && !t.IsDir(p) && t.IsDir(Parent(p))
    ensures r.Some? ==> r.value.files == t.files[p := e] && r.value.dirs == t.dirs
    ensures r.Some? && t.Valid() && IsRelPath(p) ==> r.value.Valid()
  {
    if |p| == 0 || t.IsDir(p) || !t.IsDir(Parent(p)) then None
    else
      var r := Tree(t.files[p := e], t.dirs);
      assert t.Valid() && IsRelPath(p) ==> r.AncestorsAreDirs(p) by {
        if t.Valid() && IsRelPath(p) && |p| > 1 {
          forall i | 0 < i < |p| ensures p[..i] in t.dirs {
            if i < |p| - 1 {
              assert p[..i] == Parent(p)[..i];
            } else {
              assert p[..i] == Parent(p);
            }
          }
        }
      }
      Some(r)
  }

  /** `path.unlink()` of an existing file: only that file disappears. */
  function RemoveFile<E>(t: Tree<E>, p: Path): (r: Tree<E>)
    requires p in t.files
    ensures r.files == t.files - {p} && r.dirs == t.dirs
    ensures t.Valid() ==> r.Valid()
  {
    Tree(t.files - {p}, t.dirs)
  }

  /** `dir.mkdir(parents=True, exist_ok=True)` followed by a write of `target`:
      the new tree and whether both steps succeeded. A failed write keeps the
      directories the first step created. */
  function Put<E>(t: Tree<E>, dir: Path, target: Path, e: E): (r: (Tree<E>, bool))
    ensures r.1 ==> target in r.0.files && r.0.files[target] == e
    ensures r.1 ==> r.0.files == t.files[target := e]
    ensures !r.1 ==> r.0.files == t.files
    ensures t.dirs <= r.0.dirs && r.0.dirs - t.dirs <= Prefixes(dir)
    ensures t.Valid() && IsRelPath(dir) && IsRelPath(target) ==> r.0.Valid()
    ensures |target| > 0 && Parent(target) == dir ==> (r.1 <==> Unobstructed(t, target))
  {
    assert |target| > 0 && Parent(target) == dir ==> forall i :: 0 < i <= |dir| ==> dir[..i] == target[..i];
    match MakeDirs(t, dir)
    case None => (t, false)
    case Some(t1) =>
      assert |target| > 0 && Parent(target) == dir ==> target !in Prefixes(dir);
      match WriteFile(t1, target, e)
      case None => (t1, false)
      case Some(t2) => (t2, true)
  }

  /** Nothing stands in the way of writing `target`: no ancestor is a file and
      the target is not a directory. */
  predicate Unobstructed<E>(t: Tree<E>, target: Path) {
    |target| > 0 && !t.IsDir(target) && forall i :: 0 < i < |target| ==> target[..i] !in t.files
  }

  /** `target.parent.mkdir(parents=True, exist_ok=True)` followed, when there is
      something to write (`e` is None where a step between the two raised), by
      a write of `target`. A failure keeps the directories already created. */
  function Emit<E>(t: Tree<E>, target: Path, e: Option<E>): (r: (Tree<E>, bool))
    requires |target| > 0
    ensures r.1 <==> e.Some? && Unobstructed(t, target)
    ensures r.1 ==> r.0.files == t.files[target := e.value]
    ensures !r.1 ==> r.0.files == t.files
    ensures t.dirs <= r.0.dirs && r.0.dirs - t.dirs <= Prefixes(Parent(target))
    ensures t.Valid() && IsRelPath(target) ==> r.0.Valid()
  {
    var dir := Parent(target);
    assert forall i :: 0 < i <= |dir| ==> dir[..i] == target[..i];
    match MakeDirs(t, dir)
    case None => (t, false)
    case Some(t1) =>
      assert t.Valid() && IsRelPath(target) ==> IsRelPath(dir);
      assert target !in Prefixes(dir);
      if e.None? then (t1, false)
      else
        match WriteFile(t1, target, e.value)
        case None => (t1, false)
        case Some(t2) => (t2, true)
  }
}
