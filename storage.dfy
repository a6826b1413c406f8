/** The server's `StorageManager` (backend/storage.py): lists, finds, saves and
    deletes trajectory and model files below the data directory. It keeps no
    state of its own; every answer is read off the directory trees in `data`. */
module Storage {
  import opened Outcomes
  import opened Paths
  import opened FileIds
  import opened FileTree
  import opened Ordering
  import opened TrajectoryFormat
  import opened Disk
  import opened Catalog
  import opened CatalogProperties

  class StorageManager {
    const data: DataDir

    /** The roots always exist in the model, so the `mkdir` calls of the
        Python constructor have nothing left to do. */
    constructor (data: DataDir)
      ensures this.data == data
    {
      this.data := data;
    }

    /** `list_trajectories(category)`: one entry per file named "*.npy" or
        "*.npz" anywhere below the root, restricted to one directory when a
        non-empty category is given, newest first. `walk` is the order in which
        `os.walk` reports the tree. */
    method ListTrajectories(filter: Option<string>, walk: seq<Path>) returns (r: seq<TrajectoryMetadata>)
      requires Enumerates(walk, data.trajectories.Entries())
      ensures r == SortNewestFirst(CollectTrajectories(data.trajectories, walk, filter), TrajectoryDate)
      ensures forall m :: m in r <==>
        exists p :: ListsTrajectory(data.trajectories, filter, p) && m == ListedTrajectory(data.trajectories, p)
      ensures forall i, j :: 0 <= i < j < |r| ==> r[i].uploadDate >= r[j].uploadDate
    {
      var t := data.trajectories;
      var collected: seq<TrajectoryMetadata> := [];
      for i := 0 to |walk|
        invariant collected == CollectTrajectories(t, walk[..i], filter)
      {
        var p := walk[i];
        assert walk[..i + 1][..i] == walk[..i];
        if |p| > 0 && p in t.files && InCategory(filter, p) && IsTrajectoryName(Last(p)) {
          assert ListsTrajectory(t, filter, p);
          collected := collected + [TrajectoryMeta(p, t.files[p], Last(p), CategoryOf(p))];
        }
      }
      assert walk[..|walk|] == walk;
      r := SortNewestFirst(collected, TrajectoryDate);
      TrajectoryListing(t, walk, filter);
    }

    /** `get_trajectory(id)`: the first trajectory file in walk order whose
        relative path hashes to id, or None. */
    method GetTrajectory(id: string, walk: seq<Path>) returns (r: Option<Path>)
      requires Enumerates(walk, data.trajectories.Entries())
      ensures r == FirstTrajectory(data.trajectories, walk, id)
      ensures r.Some? ==> IsTrajectoryFile(data.trajectories, r.value) && FileId(Join(r.value)) == id
      ensures r.None? <==> forall p :: IsTrajectoryFile(data.trajectories, p) ==> FileId(Join(p)) != id
    {
      var t := data.trajectories;
      FirstTrajectorySpec(t, walk, id);
      for i := 0 to |walk|
        invariant FirstTrajectory(t, walk[i..], id) == FirstTrajectory(t, walk, id)
      {
        var p := walk[i];
        if |p| > 0 && p in t.files && IsTrajectoryName(Last(p)) && FileId(Join(p)) == id {
          return Some(p);
        }
        assert walk[i..][1..] == walk[i + 1..];
      }
      return None;
    }

    /** `save_trajectory(filename, content, category)` at time `now`: creates
        the category directory when the category is non-empty, writes the file,
        and echoes the given name and category with the stored file's ID, size,
        date and parsed metadata. An operating-system error leaves the
        directories created so far and is raised to the caller. */
    method SaveTrajectory(filename: string, content: Content, category: Option<string>, now: int)
      returns (r: Result<TrajectoryMetadata, OsError>)
      requires IsRelArg(filename) && (category.Some? ==> IsRelArg(category.value))
      requires data.Valid()
      modifies data
      ensures data.Valid()
      ensures data.models == old(data.models) && data.thumbnails == old(data.thumbnails)
      ensures var target := SaveTarget(filename, category);
        var stored := Entry(content.size, now, content.payload);
        var (t', ok) := Put(old(data.trajectories), SaveDir(category), target, stored);
        && data.trajectories == t'
        && r.Ok? == ok
        && (ok ==> |target| > 0 && r.value == TrajectoryMeta(target, stored, filename, category))
      ensures IsName(filename) ==> (r.Ok? <==> Unobstructed(old(data.trajectories), SaveTarget(filename, category)))
    {
      var target := SaveTarget(filename, category);
      var stored := Entry(content.size, now, content.payload);
      PathPartsAreNames(filename);
      SaveDirIsRelPath(category);
      var (t', ok) := Put(data.trajectories, SaveDir(category), target, stored);
      assert IsName(filename) ==> (ok <==> Unobstructed(data.trajectories, target)) by {
        if IsName(filename) {
          SaveSucceedsWhenUnobstructed(data.trajectories, filename, category, stored);
        }
      }
      data.trajectories := t';
      if ok {
        r := Ok(TrajectoryMeta(target, stored, filename, category));
      } else {
        r := Err(OsError);
      }
    }

    /** `delete_trajectory(id)`: removes the file get_trajectory finds and says
        whether there was one. */
    method DeleteTrajectory(id: string, walk: seq<Path>) returns (r: bool)
      requires Enumerates(walk, data.trajectories.Entries())
      requires data.Valid()
      modifies data
      ensures data.Valid()
      ensures data.models == old(data.models) && data.thumbnails == old(data.thumbnails)
      ensures var found := FirstTrajectory(old(data.trajectories), walk, id);
        && r == found.Some?
        && data.trajectories == (if r then RemoveFile(old(data.trajectories), found.value) else old(data.trajectories))
      ensures r <==> exists p :: IsTrajectoryFile(old(data.trajectories), p) && FileId(Join(p)) == id
    {
      var found := GetTrajectory(id, walk);
      if found.Some? {
        data.trajectories := RemoveFile(data.trajectories, found.value);
        r := true;
      } else {
        r := false;
      }
    }

    /** `list_models()`: the ".xml" files at the root and the "*.xml" files
        directly inside first-level directories, newest first. `walk` is the
        order in which `iterdir` and `glob` report them. */
    method ListModels(walk: seq<Path>) returns (r: seq<ModelMetadata>)
      requires Enumerates(walk, data.models.Entries())
      ensures r == SortNewestFirst(CollectModels(data.models, walk), ModelDate)
      ensures forall m :: m in r <==> exists p :: ListsModel(data.models, p) && m == ListedModel(data.models, p)
      ensures forall i, j :: 0 <= i < j < |r| ==> r[i].uploadDate >= r[j].uploadDate
    {
      var t := data.models;
      var collected: seq<ModelMetadata> := [];
      for i := 0 to |walk|
        invariant collected == CollectModels(t, walk[..i])
      {
        var p := walk[i];
        if |p| == 2 && p in t.files && EndsWith(p[1], ".xml") {
          var e := t.files[p];
          collected := collected + [ModelMeta(p, e, p[1], Some(p[0]))];
        } else if |p| == 1 && p in t.files && Suffix(p[0]) == ".xml" {
          var e := t.files[p];
          collected := collected + [ModelMeta(p, e, p[0], None)];
        }
        assert walk[..i + 1][..i] == walk[..i];
      }
      assert walk[..|walk|] == walk;
      r := SortNewestFirst(collected, ModelDate);
      ModelListing(t, walk);
    }

    /** `get_model(id)`: the first scanned candidate whose relative path hashes
        to id, or None; the candidate may be a directory. */
    method GetModel(id: string, walk: seq<Path>) returns (r: Option<Path>)
      requires Enumerates(walk, data.models.Entries())
      ensures r == FirstModel(data.models, walk, id)
      ensures r.Some? ==> IsModelCandidate(data.models, r.value) && FileId(Join(r.value)) == id
      ensures r.None? <==> forall p :: IsModelCandidate(data.models, p) ==> FileId(Join(p)) != id
    {
      var t := data.models;
      FirstModelSpec(t, walk, id);
      for i := 0 to |walk|
        invariant FirstModel(t, walk[i..], id) == FirstModel(t, walk, id)
      {
        var p := walk[i];
        var candidate :=
          || (|p| == 2 && p in t.Entries() && EndsWith(p[1], ".xml"))
          || (|p| == 1 && p in t.files && Suffix(p[0]) == ".xml");
        if candidate && FileId(Join(p)) == id {
          return Some(p);
        }
        assert walk[i..][1..] == walk[i + 1..];
      }
      return None;
    }

    /** `save_model(filename, content, model_name)` at time `now`: writes into
        the model directory when a non-empty model name is given, else at the
        root, and echoes the given name and model name with the stored file's
        ID, relative path, size and date. */
    method SaveModel(filename: string, content: Content, modelName: Option<string>, now: int)
      returns (r: Result<ModelMetadata, OsError>)
      requires IsRelArg(filename) && (modelName.Some? ==> IsRelArg(modelName.value))
      requires data.Valid()
      modifies data
      ensures data.Valid()
      ensures data.trajectories == old(data.trajectories) && data.thumbnails == old(data.thumbnails)
      ensures var target := SaveTarget(filename, modelName);
        var stored := Entry(content.size, now, content.payload);
        var (t', ok) := Put(old(data.models), SaveDir(modelName), target, stored);
        && data.models == t'
        && r.Ok? == ok
        && (ok ==> |target| > 0 && r.value == ModelMeta(target, stored, filename, modelName))
      ensures IsName(filename) ==> (r.Ok? <==> Unobstructed(old(data.models), SaveTarget(filename, modelName)))
    {
      var target := SaveTarget(filename, modelName);
      var stored := Entry(content.size, now, content.payload);
      PathPartsAreNames(filename);
      SaveDirIsRelPath(modelName);
      var (t', ok) := Put(data.models, SaveDir(modelName), target, stored);
      assert IsName(filename) ==> (ok <==> Unobstructed(data.models, target)) by {
        if IsName(filename) {
          SaveSucceedsWhenUnobstructed(data.models, filename, modelName, stored);
        }
      }
      data.models := t';
      if ok {
        r := Ok(ModelMeta(target, stored, filename, modelName));
      } else {
        r := Err(OsError);
      }
    }

    /** `delete_model(id)`: removes the file get_model finds and says whether
        there was one; when get_model finds a directory, `unlink` raises and
        nothing changes. */
    method DeleteModel(id: string, walk: seq<Path>) returns (r: Result<bool, OsError>)
      requires Enumerates(walk, data.models.Entries())
      requires data.Valid()
      modifies data
      ensures data.Valid()
      ensures data.trajectories == old(data.trajectories) && data.thumbnails == old(data.thumbnails)
      ensures var found := FirstModel(old(data.models), walk, id);
        && (found.None? ==> r == Ok(false) && data.models == old(data.models))
        && (found.Some? && found.value in old(data.models).files ==>
              r == Ok(true) && data.models == RemoveFile(old(data.models), found.value))
        && (found.Some? && found.value !in old(data.models).files ==>
              r.Err? && data.models == old(data.models))
    {
      var found := GetModel(id, walk);
      if found.None? {
        r := Ok(false);
      } else if found.value in data.models.files {
        data.models := RemoveFile(data.models, found.value);
        r := Ok(true);
      } else {
        r := Err(OsError);
      }
    }
  }
}
