/** What the catalog promises: listings hold exactly the files the rules select,
    lookups return the first match in scan order, a saved file can be found
    again under the ID it was saved with, and a deleted one cannot. */
module CatalogProperties {
  import opened Outcomes
  import opened Paths
  import opened FileIds
  import opened FileTree
  import opened Disk
  import opened Ordering
  import opened Catalog

  // ---------------------------------------------------------------- listings

  /** Every entry list_trajectories appends comes from a walked file the rules select. */
  lemma {:induction false} CollectedTrajectoriesAreListed(t: Tree<Entry>, walk: seq<Path>, filter: Option<string>)
    ensures forall m :: m in CollectTrajectories(t, walk, filter) ==>
      exists k :: 0 <= k < |walk| && ListsTrajectory(t, filter, walk[k]) && m == ListedTrajectory(t, walk[k])
  {
    if |walk| > 0 {
      var init, last := walk[..|walk| - 1], walk[|walk| - 1];
      CollectedTrajectoriesAreListed(t, init, filter);
      var tail := if ListsTrajectory(t, filter, last) then [ListedTrajectory(t, last)] else [];
      assert CollectTrajectories(t, walk, filter) == CollectTrajectories(t, init, filter) + tail;
      forall m | m in CollectTrajectories(t, walk, filter)
        ensures exists k :: 0 <= k < |walk| && ListsTrajectory(t, filter, walk[k]) && m == ListedTrajectory(t, walk[k])
      {
        if m in tail {
          assert walk[|walk| - 1] == last;
        } else {
          var k :| 0 <= k < |init| && ListsTrajectory(t, filter, init[k]) && m == ListedTrajectory(t, init[k]);
          assert walk[k] == init[k];
        }
      }
    }
  }

  /** Every walked file the rules select gets an entry. */
  lemma {:induction false} ListedTrajectoriesAreCollected(t: Tree<Entry>, walk: seq<Path>, filter: Option<string>)
    ensures forall k :: 0 <= k < |walk| && ListsTrajectory(t, filter, walk[k]) ==>
      ListedTrajectory(t, walk[k]) in CollectTrajectories(t, walk, filter)
  {
    if |walk| > 0 {
      var init := walk[..|walk| - 1];
      ListedTrajectoriesAreCollected(t, init, filter);
      forall k | 0 <= k < |walk| - 1 && ListsTrajectory(t, filter, walk[k])
        ensures ListedTrajectory(t, walk[k]) in CollectTrajectories(t, walk, filter)
      {
        assert init[k] == walk[k];
      }
    }
  }

  /** Over a full enumeration of the tree, list_trajectories returns an entry for
      exactly the files the rules select. */
  lemma ListedTrajectoriesAreExactly(t: Tree<Entry>, walk: seq<Path>, filter: Option<string>)
    requires Enumerates(walk, t.Entries())
    ensures forall m :: m in CollectTrajectories(t, walk, filter) <==>
      exists p :: ListsTrajectory(t, filter, p) && m == ListedTrajectory(t, p)
  {
    CollectedTrajectoriesAreListed(t, walk, filter);
    ListedTrajectoriesAreCollected(t, walk, filter);
    forall m, p | ListsTrajectory(t, filter, p) && m == ListedTrajectory(t, p)
      ensures m in CollectTrajectories(t, walk, filter)
    {
      assert p in walk;
      var k :| 0 <= k < |walk| && walk[k] == p;
    }
  }

  /** What list_trajectories returns, sorted: exactly the selected files, newest first. */
  lemma TrajectoryListing(t: Tree<Entry>, walk: seq<Path>, filter: Option<string>)
    requires Enumerates(walk, t.Entries())
    ensures var r := SortNewestFirst(CollectTrajectories(t, walk, filter), TrajectoryDate);
      && (forall m :: m in r <==> exists p :: ListsTrajectory(t, filter, p) && m == ListedTrajectory(t, p))
      && (forall i, j :: 0 <= i < j < |r| ==> r[i].uploadDate >= r[j].uploadDate)
  {
    var collected := CollectTrajectories(t, walk, filter);
    SortNewestFirstSpec(collected, TrajectoryDate);
    SortKeepsMembers(collected, TrajectoryDate);
    ListedTrajectoriesAreExactly(t, walk, filter);
  }

  /** Without a filter, every trajectory file is listed. */
  lemma TrajectoryFileIsListed(t: Tree<Entry>, walk: seq<Path>, p: Path)
    requires Enumerates(walk, t.Entries()) && IsTrajectoryFile(t, p)
    ensures ListedTrajectory(t, p) in CollectTrajectories(t, walk, None)
  {
    assert p in walk;
    var k :| 0 <= k < |walk| && walk[k] == p;
    ListedTrajectoriesAreCollected(t, walk, None);
  }

  /** A non-empty filter keeps only files whose directory is exactly the filter,
      so it never keeps a file at the root; None and "" keep every file. */
  lemma CategoryFilter(filter: Option<string>, p: Path)
    requires |p| > 0
    ensures filter.Some? && filter.value != "" && InCategory(filter, p) ==> |p| > 1 && Join(Parent(p)) == filter.value
    ensures (filter.None? || filter == Some("")) ==> InCategory(filter, p)
  {
  }

  lemma {:induction false} CollectedModelsAreListed(t: Tree<Entry>, walk: seq<Path>)
    ensures forall m :: m in CollectModels(t, walk) ==>
      exists k :: 0 <= k < |walk| && ListsModel(t, walk[k]) && m == ListedModel(t, walk[k])
  {
    if |walk| > 0 {
      var init, last := walk[..|walk| - 1], walk[|walk| - 1];
      CollectedModelsAreListed(t, init);
      var tail := if ListsModel(t, last) then [ListedModel(t, last)] else [];
      assert CollectModels(t, walk) == CollectModels(t, init) + tail;
      forall m | m in CollectModels(t, walk)
        ensures exists k :: 0 <= k < |walk| && ListsModel(t, walk[k]) && m == ListedModel(t, walk[k])
      {
        if m in tail {
          assert walk[|walk| - 1] == last;
        } else {
          var k :| 0 <= k < |init| && ListsModel(t, init[k]) && m == ListedModel(t, init[k]);
          assert walk[k] == init[k];
        }
      }
    }
  }

  lemma {:induction false} ListedModelsAreCollected(t: Tree<Entry>, walk: seq<Path>)
    ensures forall k :: 0 <= k < |walk| && ListsModel(t, walk[k]) ==> ListedModel(t, walk[k]) in CollectModels(t, walk)
  {
    if |walk| > 0 {
      var init := walk[..|walk| - 1];
      ListedModelsAreCollected(t, init);
      forall k | 0 <= k < |walk| - 1 && ListsModel(t, walk[k])
        ensures ListedModel(t, walk[k]) in CollectModels(t, walk)
      {
        assert init[k] == walk[k];
      }
    }
  }

  /** list_models yields exactly the root-level ".xml" files, with no model name
      and their own name as relative path, and the "*.xml" files directly inside
      a first-level directory, named after that directory; nothing deeper. */
  lemma ListedModelsAreExactly(t: Tree<Entry>, walk: seq<Path>)
    requires Enumerates(walk, t.Entries())
    ensures forall m :: m in CollectModels(t, walk) <==>
      exists p :: ListsModel(t, p) && m == ListedModel(t, p)
  {
    CollectedModelsAreListed(t, walk);
    ListedModelsAreCollected(t, walk);
    forall m, p | ListsModel(t, p) && m == ListedModel(t, p)
      ensures m in CollectModels(t, walk)
    {
      assert p in walk;
      var k :| 0 <= k < |walk| && walk[k] == p;
    }
  }

  /** What list_models returns, sorted: exactly the selected files, newest first. */
  lemma ModelListing(t: Tree<Entry>, walk: seq<Path>)
    requires Enumerates(walk, t.Entries())
    ensures var r := SortNewestFirst(CollectModels(t, walk), ModelDate);
      && (forall m :: m in r <==> exists p :: ListsModel(t, p) && m == ListedModel(t, p))
      && (forall i, j :: 0 <= i < j < |r| ==> r[i].uploadDate >= r[j].uploadDate)
  {
    var collected := CollectModels(t, walk);
    SortNewestFirstSpec(collected, ModelDate);
    SortKeepsMembers(collected, ModelDate);
    ListedModelsAreExactly(t, walk);
  }

  // ---------------------------------------------------------------- lookups

  /** get_trajectory returns the first walked trajectory file carrying the ID,
      and None exactly when no walked trajectory file carries it. */
  lemma {:induction false} FirstTrajectorySpec(t: Tree<Entry>, walk: seq<Path>, id: string)
    ensures var r := FirstTrajectory(t, walk, id);
      && (r.None? <==> forall k :: 0 <= k < |walk| ==> !TrajectoryHasId(t, walk[k], id))
      && (r.Some? ==> exists k :: 0 <= k < |walk| && walk[k] == r.value && TrajectoryHasId(t, walk[k], id)
                                  && forall j :: 0 <= j < k ==> !TrajectoryHasId(t, walk[j], id))
  {
    if |walk| > 0 {
      FirstTrajectorySpec(t, walk[1..], id);
      if !TrajectoryHasId(t, walk[0], id) {
        var r := FirstTrajectory(t, walk, id);
        if r.Some? {
          var k :| 0 <= k < |walk[1..]| && walk[1..][k] == r.value && TrajectoryHasId(t, walk[1..][k], id)
                   && forall j :: 0 <= j < k ==> !TrajectoryHasId(t, walk[1..][j], id);
          assert walk[k + 1] == r.value;
          forall j | 0 <= j < k + 1 ensures !TrajectoryHasId(t, walk[j], id) {
            if j > 0 { assert walk[j] == walk[1..][j - 1]; }
          }
        } else {
          forall k | 0 <= k < |walk| ensures !TrajectoryHasId(t, walk[k], id) {
            if k > 0 { assert walk[k] == walk[1..][k - 1]; }
          }
        }
      }
    }
  }

  /** get_model returns the first scanned candidate carrying the ID, and None
      exactly when no scanned candidate carries it. */
  lemma {:induction false} FirstModelSpec(t: Tree<Entry>, walk: seq<Path>, id: string)
    ensures var r := FirstModel(t, walk, id);
      && (r.None? <==> forall k :: 0 <= k < |walk| ==> !ModelHasId(t, walk[k], id))
      && (r.Some? ==> exists k :: 0 <= k < |walk| && walk[k] == r.value && ModelHasId(t, walk[k], id)
                                  && forall j :: 0 <= j < k ==> !ModelHasId(t, walk[j], id))
  {
    if |walk| > 0 {
      FirstModelSpec(t, walk[1..], id);
      if !ModelHasId(t, walk[0], id) {
        var r := FirstModel(t, walk, id);
        if r.Some? {
          var k :| 0 <= k < |walk[1..]| && walk[1..][k] == r.value && ModelHasId(t, walk[1..][k], id)
                   && forall j :: 0 <= j < k ==> !ModelHasId(t, walk[1..][j], id);
          assert walk[k + 1] == r.value;
          forall j | 0 <= j < k + 1 ensures !ModelHasId(t, walk[j], id) {
            if j > 0 { assert walk[j] == walk[1..][j - 1]; }
          }
        } else {
          forall k | 0 <= k < |walk| ensures !ModelHasId(t, walk[k], id) {
            if k > 0 { assert walk[k] == walk[1..][k - 1]; }
          }
        }
      }
    }
  }

  /** Every trajectory file present is found by its own ID; with distinct IDs it
      is the file found. */
  lemma TrajectoryFoundById(t: Tree<Entry>, walk: seq<Path>, p: Path)
    requires Enumerates(walk, t.Entries()) && IsTrajectoryFile(t, p)
    ensures var r := FirstTrajectory(t, walk, FileId(Join(p)));
      r.Some? && FileId(Join(r.value)) == FileId(Join(p))
      && (TrajectoryIdsDistinct(t) ==> r == Some(p))
  {
    FirstTrajectorySpec(t, walk, FileId(Join(p)));
    assert p in walk;
  }

  lemma ModelFoundById(t: Tree<Entry>, walk: seq<Path>, p: Path)
    requires Enumerates(walk, t.Entries()) && IsModelCandidate(t, p)
    ensures var r := FirstModel(t, walk, FileId(Join(p)));
      r.Some? && FileId(Join(r.value)) == FileId(Join(p))
      && (ModelIdsDistinct(t) ==> r == Some(p))
  {
    FirstModelSpec(t, walk, FileId(Join(p)));
    assert p in walk;
  }

  // ---------------------------------------------------------------- save, then look up

  lemma SaveDirIsRelPath(sub: Option<string>)
    requires sub.Some? ==> IsRelArg(sub.value)
    ensures IsRelPath(SaveDir(sub))
  {
    if sub.Some? {
      PathPartsAreNames(sub.value);
    }
  }

  lemma SaveTargetFacts(filename: string, sub: Option<string>, ext: string)
    requires IsRelArg(filename) && (sub.Some? ==> IsRelArg(sub.value))
    requires EndsWith(filename, ext) && '/' !in ext && ext != "" && ext != "."
    ensures var target := SaveTarget(filename, sub);
      |target| > 0 && EndsWith(Last(target), ext) && IsRelPath(target) && |PathParts(filename)| > 0
      && Parent(target) == SaveDir(sub) + Parent(PathParts(filename))
  {
    PathPartsKeepExtension(filename, ext);
    PathPartsAreNames(filename);
    SaveDirIsRelPath(sub);
    ConcatPath(SaveDir(sub), PathParts(filename));
  }

  /** save_trajectory followed by get_trajectory: a file saved under a name
      ending in ".npy" or ".npz" is found again by the ID the save returned;
      with distinct IDs it is exactly the saved file. */
  lemma SavedTrajectoryIsFound(t: Tree<Entry>, filename: string, sub: Option<string>, e: Entry,
                               t': Tree<Entry>, walk: seq<Path>)
    requires IsRelArg(filename) && (sub.Some? ==> IsRelArg(sub.value))
    requires EndsWith(filename, ".npy") || EndsWith(filename, ".npz")
    requires Put(t, SaveDir(sub), SaveTarget(filename, sub), e) == (t', true)
    requires Enumerates(walk, t'.Entries())
    ensures var id := FileId(Join(SaveTarget(filename, sub)));
      && FirstTrajectory(t', walk, id).Some?
      && FileId(Join(FirstTrajectory(t', walk, id).value)) == id
      && (TrajectoryIdsDistinct(t') ==> FirstTrajectory(t', walk, id) == Some(SaveTarget(filename, sub)))
  {
    var ext := if EndsWith(filename, ".npy") then ".npy" else ".npz";
    SaveTargetFacts(filename, sub, ext);
    TrajectoryFoundById(t', walk, SaveTarget(filename, sub));
  }

  /** save_trajectory followed by list_trajectories: the saved file is listed
      with the ID, size, date and parsed metadata the save returned, under its
      own file name and directory. */
  lemma SavedTrajectoryIsListed(t: Tree<Entry>, filename: string, sub: Option<string>, e: Entry,
                                t': Tree<Entry>, walk: seq<Path>)
    requires IsRelArg(filename) && (sub.Some? ==> IsRelArg(sub.value))
    requires EndsWith(filename, ".npy") || EndsWith(filename, ".npz")
    requires Put(t, SaveDir(sub), SaveTarget(filename, sub), e) == (t', true)
    requires Enumerates(walk, t'.Entries())
    ensures var target := SaveTarget(filename, sub);
      && IsTrajectoryFile(t', target)
      && ListedTrajectory(t', target) in CollectTrajectories(t', walk, None)
      && ListedTrajectory(t', target) == TrajectoryMeta(target, e, Last(target), CategoryOf(target))
  {
    var ext := if EndsWith(filename, ".npy") then ".npy" else ".npz";
    SaveTargetFacts(filename, sub, ext);
    TrajectoryFileIsListed(t', walk, SaveTarget(filename, sub));
  }

  /** The name and category save_trajectory echoes agree with the ones the
      listing derives from the stored path when the name is a plain file name
      and the category was given in normal form (not "", not "a/", not "./a"). */
  lemma SavedTrajectoryEchoes(filename: string, sub: Option<string>)
    requires IsName(filename) && (sub.Some? ==> IsRelArg(sub.value))
    ensures var target := SaveTarget(filename, sub);
      && |target| > 0 && Last(target) == filename
      && (sub.None? ==> CategoryOf(target) == sub)
      && (sub.Some? && sub.value != "" && Join(PathParts(sub.value)) == sub.value ==> CategoryOf(target) == sub)
  {
    PathPartsOfJoin([filename]);
    assert PathParts(filename) == [filename];
    var target := SaveTarget(filename, sub);
    assert Parent(target) == SaveDir(sub);
    assert Join([]) == "";
  }

  /** With plain names, the target is the name below the directory name. */
  lemma SaveTargetOfNames(filename: string, sub: Option<string>)
    requires IsName(filename) && (sub.Some? ==> sub.value == "" || IsName(sub.value))
    ensures SaveTarget(filename, sub) == (if sub.Some? && sub.value != "" then [sub.value, filename] else [filename])
  {
    PathPartsOfJoin([filename]);
    if sub.Some? && sub.value != "" {
      PathPartsOfJoin([sub.value]);
    }
  }

  /** save_trajectory and save_model of a plain file name: the save succeeds
      exactly when nothing stands in the way of its target (no file on the
      directory path, no directory at the target). */
  lemma SaveSucceedsWhenUnobstructed<E>(t: Tree<E>, filename: string, sub: Option<string>, e: E)
    requires IsName(filename)
    ensures Put(t, SaveDir(sub), SaveTarget(filename, sub), e).1 <==> Unobstructed(t, SaveTarget(filename, sub))
  {
    PathPartsOfJoin([filename]);
    assert SaveTarget(filename, sub) == SaveDir(sub) + [filename];
    assert Parent(SaveTarget(filename, sub)) == SaveDir(sub);
  }

  /** A save over a file already stored at the target replaces its content,
      silently, and creates no directory. */
  lemma SaveOverwritesFile<E>(t: Tree<E>, filename: string, sub: Option<string>, e: E)
    requires IsName(filename) && t.Valid() && SaveTarget(filename, sub) in t.files
    ensures var target := SaveTarget(filename, sub);
      Put(t, SaveDir(sub), target, e) == (Tree(t.files[target := e], t.dirs), true)
  {
    var target := SaveTarget(filename, sub);
    SaveSucceedsWhenUnobstructed(t, filename, sub, e);
    assert t.AncestorsAreDirs(target);
    assert Unobstructed(t, target);
    var r := Put(t, SaveDir(sub), target, e);
    assert r.0.dirs == t.dirs by {
      forall q | q in Prefixes(SaveDir(sub)) ensures q in t.dirs {
        var i :| 0 < i <= |SaveDir(sub)| && q == SaveDir(sub)[..i];
        assert q == target[..i];
      }
    }
  }

  /** save_model followed by get_model: a file saved at the root under a name
      "x.xml", or inside a model directory under a name ending in ".xml", is
      found again by the ID the save returned. */
  lemma SavedModelIsFound(t: Tree<Entry>, filename: string, sub: Option<string>, e: Entry,
                          t': Tree<Entry>, walk: seq<Path>)
    requires IsName(filename) && EndsWith(filename, ".xml") && |filename| > 4
    requires sub.Some? ==> sub.value == "" || IsName(sub.value)
    requires Put(t, SaveDir(sub), SaveTarget(filename, sub), e) == (t', true)
    requires Enumerates(walk, t'.Entries())
    ensures var id := FileId(Join(SaveTarget(filename, sub)));
      && FirstModel(t', walk, id).Some?
      && FileId(Join(FirstModel(t', walk, id).value)) == id
      && (ModelIdsDistinct(t') ==> FirstModel(t', walk, id) == Some(SaveTarget(filename, sub)))
  {
    var target := SaveTarget(filename, sub);
    SaveTargetOfNames(filename, sub);
    SuffixOfExtension(filename, ".xml");
    assert IsModelCandidate(t', target);
    ModelFoundById(t', walk, target);
  }

  /** A model saved two or more directories deep (model name "a/b") is written
      but get_model never returns it, whatever the ID. */
  lemma DeepModelIsNeverFound(t: Tree<Entry>, walk: seq<Path>, target: Path, id: string)
    requires |target| > 2
    ensures FirstModel(t, walk, id) != Some(target)
  {
    FirstModelSpec(t, walk, id);
  }

  // ---------------------------------------------------------------- delete, then look up

  /** delete_trajectory removes the file the lookup found; with distinct IDs a
      later lookup of the same ID finds nothing. */
  lemma DeletedTrajectoryIsGone(t: Tree<Entry>, walk: seq<Path>, id: string, walk': seq<Path>)
    requires TrajectoryIdsDistinct(t)
    requires FirstTrajectory(t, walk, id).Some?
    requires Enumerates(walk', RemoveFile(t, FirstTrajectory(t, walk, id).value).Entries())
    ensures FirstTrajectory(RemoveFile(t, FirstTrajectory(t, walk, id).value), walk', id) == None
  {
    var p := FirstTrajectory(t, walk, id).value;
    FirstTrajectorySpec(t, walk, id);
    var t' := RemoveFile(t, p);
    FirstTrajectorySpec(t', walk', id);
    assert forall q :: TrajectoryHasId(t', q, id) ==> TrajectoryHasId(t, q, id) && q == p;
    assert !TrajectoryHasId(t', p, id);
  }

  /** delete_model of a file removes it; with distinct IDs a later lookup of the
      same ID finds nothing. */
  lemma DeletedModelIsGone(t: Tree<Entry>, walk: seq<Path>, id: string, walk': seq<Path>)
    requires t.Valid() && ModelIdsDistinct(t)
    requires FirstModel(t, walk, id).Some? && FirstModel(t, walk, id).value in t.files
    requires Enumerates(walk', RemoveFile(t, FirstModel(t, walk, id).value).Entries())
    ensures FirstModel(RemoveFile(t, FirstModel(t, walk, id).value), walk', id) == None
  {
    var p := FirstModel(t, walk, id).value;
    FirstModelSpec(t, walk, id);
    var t' := RemoveFile(t, p);
    FirstModelSpec(t', walk', id);
    assert t'.Entries() <= t.Entries();
    assert p !in t'.Entries();
    assert forall q :: ModelHasId(t', q, id) ==> ModelHasId(t, q, id) && q == p;
    assert !ModelHasId(t', p, id);
  }

  // ---------------------------------------------------------------- get_model versus list_models

  /** get_model omits the `is_file()` test list_models makes: a directory named
      like "x.xml" inside a model directory is never listed, yet get_model
      returns it for its ID (and delete_model then fails on it). */
  lemma ModelLookupReturnsDirectory(t: Tree<Entry>, walk: seq<Path>, p: Path)
    requires t.Valid() && Enumerates(walk, t.Entries())
    requires |p| == 2 && p in t.dirs && EndsWith(p[1], ".xml")
    ensures p !in t.files && !ListsModel(t, p)
    ensures forall m :: m in CollectModels(t, walk) ==> m.relativePath != Join(p)
    ensures var r := FirstModel(t, walk, FileId(Join(p)));
      r.Some? && (ModelIdsDistinct(t) ==> r == Some(p))
  {
    ListedModelsAreExactly(t, walk);
    forall m | m in CollectModels(t, walk) ensures m.relativePath != Join(p) {
      var q :| ListsModel(t, q) && m == ListedModel(t, q);
      PathPartsOfJoin(q);
      PathPartsOfJoin(p);
    }
    ModelFoundById(t, walk, p);
  }
}
