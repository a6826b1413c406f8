/** The offline thumbnail generator (backend/scripts/generate_thumbnails.py):
    which thumbnail file a render writes, when it refuses, which pose rows an
    animation shows, the per-folder tally and the command dispatch of `main`.
    Loading a model, posing it and rendering pixels are one step that succeeds
    or raises, given to every render as a boolean `renders`. */
module Thumbnails {
  import opened Outcomes
  import opened Paths
  import opened FileIds
  import opened FileTree
  import opened TrajectoryFormat
  import opened Disk
  import opened FrameSampling

  // ---------------------------------------------------------------- output paths

  /** `f"{id}.webp"`. */
  function ThumbnailName(id: string): string {
    id + ".webp"
  }

  /** `thumbnails/models/<parent of the model path>/<id>.webp`; the ID hashes
      the argument exactly as it was given. */
  function ModelThumbnail(modelArg: string): (r: Path)
    requires |PathParts(modelArg)| > 0
    ensures |r| > 0 && Last(r) == ThumbnailName(FileId(modelArg))
    ensures Parent(r) == ["models"] + Parent(PathParts(modelArg))
  {
    ["models"] + Parent(PathParts(modelArg)) + [ThumbnailName(FileId(modelArg))]
  }

  /** `thumbnails/trajectories/<parent of rel>/<id>.webp`, the ID hashing
      `str(rel)`, the path below the trajectories root. */
  function TrajectoryThumbnail(rel: Path): (r: Path)
    requires |rel| > 0
    ensures |r| > 0 && Last(r) == ThumbnailName(FileId(Join(rel)))
    ensures Parent(r) == ["trajectories"] + Parent(rel)
  {
    ["trajectories"] + Parent(rel) + [ThumbnailName(FileId(Join(rel)))]
  }

  // ---------------------------------------------------------------- renders

  /** The two checks before any work: `model_path.exists()` (a file or a
      directory) and `model_path.suffix == '.xml'`. */
  predicate AcceptsModel(models: Tree<Entry>, p: Path) {
    models.Exists(p) && |p| > 0 && Suffix(Last(p)) == ".xml"
  }

  /** `render_model`: the new thumbnail tree and the returned flag. Loading the
      model raises for a directory, so only a file can be rendered. */
  function ModelRender(models: Tree<Entry>, thumbs: Tree<Image>, modelArg: string, renders: bool): (r: (Tree<Image>, bool))
    ensures !AcceptsModel(models, PathParts(modelArg)) ==> r == (thumbs, false)
    ensures r.1 <==>
      && AcceptsModel(models, PathParts(modelArg)) && PathParts(modelArg) in models.files && renders
      && Unobstructed(thumbs, ModelThumbnail(modelArg))
    ensures r.1 ==> r.0.files == thumbs.files[ModelThumbnail(modelArg) := Still(PathParts(modelArg))]
    ensures !r.1 ==> r.0.files == thumbs.files
    ensures thumbs.dirs <= r.0.dirs
    ensures AcceptsModel(models, PathParts(modelArg)) ==>
      r.0.dirs - thumbs.dirs <= Prefixes(Parent(ModelThumbnail(modelArg)))
  {
    var p := PathParts(modelArg);
    if !AcceptsModel(models, p) then (thumbs, false)
    else
      Emit(thumbs, ModelThumbnail(modelArg), if p in models.files && renders then Some(Still(p)) else None)
  }

  /** What the animation of trajectory `rel` posed on `model` shows, or None
      where a step raises: the file cannot be loaded (a directory, unreadable
      content), a bundle has no `qpos`, `len()` fails on a 0-d array, or a
      sampled row does not exist (an empty pose array). */
  function Animate(trajectories: Tree<Entry>, rel: Path, model: Path): (r: Option<Image>)
    ensures r.Some? <==>
      && rel in trajectories.files && PoseField(trajectories.files[rel].payload).Some?
      && Len(PoseField(trajectories.files[rel].payload).value).Some?
      && Len(PoseField(trajectories.files[rel].payload).value).value >= 1
    ensures r.Some? ==>
      var n := Len(PoseField(trajectories.files[rel].payload).value).value;
      && r.value.Animation? && r.value.model == model && r.value.trajectory == rel
      && r.value.frameMs == AnimationDuration && |r.value.rows| == TrajectoryFrames
      && forall k :: 0 <= k < TrajectoryFrames ==> r.value.rows[k] == FrameIndices(n)[k]
  {
    if rel !in trajectories.files then None
    else
      match PoseField(trajectories.files[rel].payload)
      case None => None
      case Some(pose) =>
        match Len(pose)
        case None => None
        case Some(n) =>
          if n == 0 then FrameRowsOfEmpty(); None
          else
            FrameRowsOfPicks(n);
            Some(Animation(model, rel, FrameRows(FrameIndices(n), n).value, AnimationDuration))
  }

  /** `render_trajectory` for the file `rel` below the trajectories root. */
  function TrajectoryRender(models: Tree<Entry>, thumbs: Tree<Image>, trajectories: Tree<Entry>,
                            rel: Path, modelArg: string, renders: bool): (r: (Tree<Image>, bool))
    requires |rel| > 0
    ensures !AcceptsModel(models, PathParts(modelArg)) ==> r == (thumbs, false)
    ensures r.1 <==>
      && AcceptsModel(models, PathParts(modelArg)) && PathParts(modelArg) in models.files && renders
      && Animate(trajectories, rel, PathParts(modelArg)).Some?
      && Unobstructed(thumbs, TrajectoryThumbnail(rel))
    ensures r.1 ==> r.0.files == thumbs.files[TrajectoryThumbnail(rel) := Animate(trajectories, rel, PathParts(modelArg)).value]
    ensures !r.1 ==> r.0.files == thumbs.files
    ensures thumbs.dirs <= r.0.dirs && r.0.dirs - thumbs.dirs <= Prefixes(Parent(TrajectoryThumbnail(rel)))
  {
    var p := PathParts(modelArg);
    if !AcceptsModel(models, p) then (thumbs, false)
    else
      Emit(thumbs, TrajectoryThumbnail(rel), if p in models.files && renders then Animate(trajectories, rel, p) else None)
  }

  /** A thumbnail path is made of well-formed names whenever its directory is. */
  lemma ThumbnailPathIsRelPath(dir: Path, id: string)
    requires |id| == 16 && forall k :: 0 <= k < |id| ==> IsHexDigit(id[k])
    requires |dir| > 0 && (dir[0] == "models" || dir[0] == "trajectories") && IsRelPath(dir[1..])
    ensures IsRelPath(dir + [ThumbnailName(id)])
  {
    ThumbnailNameIsName(id);
    assert IsName(dir[0]);
    assert forall k :: 1 <= k < |dir| ==> dir[k] == dir[1..][k - 1];
  }

  /** The file name of a thumbnail is a single well-formed entry name. */
  lemma ThumbnailNameIsName(id: string)
    requires |id| == 16 && forall k :: 0 <= k < |id| ==> IsHexDigit(id[k])
    ensures IsName(ThumbnailName(id))
  {
    var name := ThumbnailName(id);
    forall k | 0 <= k < |name| ensures name[k] != '/' {
      if k < 16 {
        assert name[k] == id[k];
      }
    }
  }

  // ---------------------------------------------------------------- folders

  /** An entry directly inside `folder`. */
  predicate IsChild(folder: Path, p: Path) {
    |p| == |folder| + 1 && p[..|folder|] == folder
  }

  /** `folder_path.glob(pattern)` for `*<ext>`: the entries directly inside the
      folder whose name ends in ext, files and directories alike, in the order
      the directory is read. */
  function Glob(walk: seq<Path>, folder: Path, ext: string): (r: seq<Path>)
    ensures forall k :: 0 <= k < |r| ==> r[k] in walk && IsChild(folder, r[k]) && EndsWith(Last(r[k]), ext)
    ensures forall p :: p in walk && IsChild(folder, p) && EndsWith(Last(p), ext) ==> p in r
  {
    if |walk| == 0 then []
    else
      var p := walk[|walk| - 1];
      var r := Glob(walk[..|walk| - 1], folder, ext) + (if IsChild(folder, p) && EndsWith(Last(p), ext) then [p] else []);
      assert forall q :: q in walk ==> q in walk[..|walk| - 1] || q == p;
      r
  }

  /** `list(folder_path.glob("*.npy")) + list(folder_path.glob("*.npz"))`. */
  function FolderTrajectories(walk: seq<Path>, folder: Path): seq<Path> {
    Glob(walk, folder, ".npy") + Glob(walk, folder, ".npz")
  }

  /** The entries directly inside `folder` whose name ends in ".npy" or ".npz":
      what the two globs find, files and directories alike. */
  function FolderEntries(trajectories: Tree<Entry>, folder: Path): set<Path> {
    set p | p in trajectories.Entries() && IsChild(folder, p) && (EndsWith(Last(p), ".npy") || EndsWith(Last(p), ".npz"))
  }

  /** A glob over a walk that repeats no entry repeats no entry either. */
  lemma {:induction false} GlobDistinct(walk: seq<Path>, folder: Path, ext: string)
    requires forall i, j :: 0 <= i < j < |walk| ==> walk[i] != walk[j]
    ensures forall i, j :: 0 <= i < j < |Glob(walk, folder, ext)| ==> Glob(walk, folder, ext)[i] != Glob(walk, folder, ext)[j]
  {
    if |walk| > 0 {
      var init, p := walk[..|walk| - 1], walk[|walk| - 1];
      GlobDistinct(init, folder, ext);
      var r0 := Glob(init, folder, ext);
      assert Glob(walk, folder, ext) == r0 + (if IsChild(folder, p) && EndsWith(Last(p), ext) then [p] else []);
      var r := Glob(walk, folder, ext);
      assert p !in init;
      forall i, j | 0 <= i < j < |r| ensures r[i] != r[j] {
        if j < |r0| {
          assert r[i] == r0[i] && r[j] == r0[j];
        } else {
          assert r[i] == r0[i] && r0[i] in init && r[j] == p;
        }
      }
    }
  }

  /** A name cannot end in both extensions. */
  lemma NotBothExtensions(name: string)
    ensures !(EndsWith(name, ".npy") && EndsWith(name, ".npz"))
  {
  }

  /** A sequence that repeats no element has as many elements as its set. */
  lemma {:induction false} DistinctCardinality(s: seq<Path>)
    requires forall i, j :: 0 <= i < j < |s| ==> s[i] != s[j]
    ensures |set p | p in s| == |s|
  {
    if |s| > 0 {
      var init := s[..|s| - 1];
      DistinctCardinality(init);
      assert (set p | p in s) == (set p | p in init) + {s[|s| - 1]};
      assert s[|s| - 1] !in init;
    }
  }

  /** When `walk` enumerates the trajectories tree, the files a folder render
      goes through are the folder's ".npy" and ".npz" entries, each once, so
      their number is the number of those entries. */
  lemma FolderTrajectoriesAreFolderEntries(trajectories: Tree<Entry>, walk: seq<Path>, folder: Path)
    requires Enumerates(walk, trajectories.Entries())
    ensures var files := FolderTrajectories(walk, folder);
      && (forall i, j :: 0 <= i < j < |files| ==> files[i] != files[j])
      && (forall p :: p in files <==> p in FolderEntries(trajectories, folder))
      && |files| == |FolderEntries(trajectories, folder)|
  {
    var npy, npz := Glob(walk, folder, ".npy"), Glob(walk, folder, ".npz");
    var files := FolderTrajectories(walk, folder);
    GlobDistinct(walk, folder, ".npy");
    GlobDistinct(walk, folder, ".npz");
    forall i, j | 0 <= i < |npy| && 0 <= j < |npz| ensures npy[i] != npz[j] {
      NotBothExtensions(Last(npy[i]));
    }
    assert forall i, j :: 0 <= i < j < |files| ==> files[i] != files[j] by {
      forall i, j | 0 <= i < j < |files| ensures files[i] != files[j] {
        if j < |npy| {
          assert files[i] == npy[i] && files[j] == npy[j];
        } else if i >= |npy| {
          assert files[i] == npz[i - |npy|] && files[j] == npz[j - |npy|];
        } else {
          assert files[i] == npy[i] && files[j] == npz[j - |npy|];
        }
      }
    }
    assert (set p | p in files) == FolderEntries(trajectories, folder);
    DistinctCardinality(files);
  }

  /** How many renders returned True. */
  function Count(oks: seq<bool>): (n: nat)
    ensures n <= |oks|
    ensures n == |oks| <==> forall k :: 0 <= k < |oks| ==> oks[k]
    ensures n == 0 <==> forall k :: 0 <= k < |oks| ==> !oks[k]
  {
    if |oks| == 0 then 0
    else
      var n := Count(oks[..|oks| - 1]);
      assert forall k :: 0 <= k < |oks| - 1 ==> oks[..|oks| - 1][k] == oks[k];
      n + (if oks[|oks| - 1] then 1 else 0)
  }

  /** The loop of render_trajectories_in_folder: every file is rendered in
      turn, after a failure too, each render seeing the thumbnails the earlier
      ones wrote; the final thumbnails and each render's flag. */
  function Batch(models: Tree<Entry>, thumbs: Tree<Image>, trajectories: Tree<Entry>,
                 files: seq<Path>, modelArg: string, renders: Path -> bool): (r: (Tree<Image>, seq<bool>))
    requires forall k :: 0 <= k < |files| ==> |files[k]| > 0
    ensures |r.1| == |files|
    ensures thumbs.dirs <= r.0.dirs
  {
    if |files| == 0 then (thumbs, [])
    else
      var last := files[|files| - 1];
      var (t1, oks) := Batch(models, thumbs, trajectories, files[..|files| - 1], modelArg, renders);
      var (t2, ok) := TrajectoryRender(models, t1, trajectories, last, modelArg, renders(last));
      (t2, oks + [ok])
  }

  /** One more file extends the batch by one render. */
  lemma BatchStep(models: Tree<Entry>, thumbs: Tree<Image>, trajectories: Tree<Entry>,
                  files: seq<Path>, modelArg: string, renders: Path -> bool, i: nat)
    requires forall j :: 0 <= j < |files| ==> |files[j]| > 0
    requires i < |files|
    ensures var before := Batch(models, thumbs, trajectories, files[..i], modelArg, renders);
      var step := TrajectoryRender(models, before.0, trajectories, files[i], modelArg, renders(files[i]));
      Batch(models, thumbs, trajectories, files[..i + 1], modelArg, renders) == (step.0, before.1 + [step.1])
  {
    assert files[..i + 1][..i] == files[..i];
  }

  /** `render_trajectories_in_folder(folder, model)`: the new thumbnails and
      `(success_count, total_count)`. A missing folder, a path that is not a
      folder and a folder without trajectory files all give (0, 0). */
  function FolderRender(models: Tree<Entry>, thumbs: Tree<Image>, trajectories: Tree<Entry>,
                        walk: seq<Path>, folder: Path, modelArg: string, renders: Path -> bool): (r: (Tree<Image>, nat, nat))
    requires Enumerates(walk, trajectories.Entries())
    ensures r.1 <= r.2
    ensures r.2 == (if trajectories.IsDir(folder) then |FolderEntries(trajectories, folder)| else 0)
    ensures r.2 == 0 ==> r.0 == thumbs
    ensures thumbs.dirs <= r.0.dirs
  {
    FolderTrajectoriesAreFolderEntries(trajectories, walk, folder);
    if !trajectories.IsDir(folder) then (thumbs, 0, 0)
    else
      var files := FolderTrajectories(walk, folder);
      if |files| == 0 then (thumbs, 0, 0)
      else
        var (t, oks) := Batch(models, thumbs, trajectories, files, modelArg, renders);
        (t, Count(oks), |files|)
  }

  /** A folder with trajectory files gives the batch over all of them. */
  lemma FolderRenderOfBatch(models: Tree<Entry>, thumbs: Tree<Image>, trajectories: Tree<Entry>,
                            walk: seq<Path>, folder: Path, modelArg: string, renders: Path -> bool)
    requires Enumerates(walk, trajectories.Entries())
    requires trajectories.IsDir(folder) && |FolderTrajectories(walk, folder)| > 0
    ensures var files := FolderTrajectories(walk, folder);
      forall k :: 0 <= k < |files| ==> |files[k]| > 0
    ensures var files := FolderTrajectories(walk, folder);
      var batch := Batch(models, thumbs, trajectories, files[..|files|], modelArg, renders);
      FolderRender(models, thumbs, trajectories, walk, folder, modelArg, renders) == (batch.0, Count(batch.1), |files|)
  {
    var files := FolderTrajectories(walk, folder);
    assert forall j :: 0 <= j < |files| ==> files[j] in walk && IsChild(folder, files[j]);
    assert files[..|files|] == files;
  }

  // ---------------------------------------------------------------- startup

  /** The constructor's two `mkdir(parents=True, exist_ok=True)` calls; they
      raise when a file stands where the directory should be. */
  function Startup(thumbs: Tree<Image>): (r: (Tree<Image>, bool))
    ensures r.1 <==> ["models"] !in thumbs.files && ["trajectories"] !in thumbs.files
    ensures r.0.files == thumbs.files && thumbs.dirs <= r.0.dirs
    ensures r.1 ==> r.0.IsDir(["models"]) && r.0.IsDir(["trajectories"])
    ensures thumbs.Valid() ==> r.0.Valid()
  {
    assert ["models"][..1] == ["models"] && ["trajectories"][..1] == ["trajectories"];
    match MakeDirs(thumbs, ["models"])
    case None => (thumbs, false)
    case Some(t1) =>
      match MakeDirs(t1, ["trajectories"])
      case None => (t1, false)
      case Some(t2) => (t2, true)
  }

  // ---------------------------------------------------------------- the generator

  /** The frame loop of render_trajectory: reads `qpos_data[idx]` for each
      sampled index in turn, and raises IndexError at the first one that is out
      of range. */
  method PoseRows(indices: seq<int>, n: nat) returns (rows: Option<seq<nat>>)
    ensures rows == FrameRows(indices, n)
  {
    var read: seq<nat> := [];
    for i := 0 to |indices|
      invariant InRange(indices[..i], n)
      invariant |read| == i && forall k :: 0 <= k < i ==> read[k] == RowAt(indices[k], n)
    {
      var idx := indices[i];
      if !(-(n as int) <= idx < n) {
        assert !InRange(indices, n);
        return None;
      }
      read := read + [RowAt(idx, n)];
      assert indices[..i + 1][..i] == indices[..i];
    }
    assert indices[..|indices|] == indices;
    assert read == seq(|indices|, k requires 0 <= k < |indices| => RowAt(indices[k], n));
    rows := Some(read);
  }

  /** The part of render_trajectory that reads the trajectory: `np.load`, the
      `qpos` field of a bundle, `len()`, the sampled indices and the frame loop. */
  method LoadAnimation(trajectories: Tree<Entry>, rel: Path, model: Path) returns (image: Option<Image>)
    ensures image == Animate(trajectories, rel, model)
  {
    FrameRowsOfEmpty();
    if rel !in trajectories.files {
      return None;
    }
    var pose := PoseField(trajectories.files[rel].payload);
    if pose.None? {
      return None;
    }
    var total := Len(pose.value);
    if total.None? {
      return None;
    }
    var n := total.value;
    var rows := PoseRows(FrameIndices(n), n);
    if rows.None? {
      assert n == 0 by {
        if n > 0 {
          FrameRowsOfPicks(n);
        }
      }
      return None;
    }
    assert n > 0;
    image := Some(Animation(model, rel, rows.value, AnimationDuration));
  }

  class ThumbnailGenerator {
    const data: DataDir

    /** Creates `thumbnails/models` and `thumbnails/trajectories`. */
    constructor (data: DataDir)
      requires Startup(data.thumbnails).1
      modifies data
      ensures this.data == data
      ensures data.thumbnails == Startup(old(data.thumbnails)).0
      ensures data.models == old(data.models) && data.trajectories == old(data.trajectories)
    {
      this.data := data;
      new;
      data.thumbnails := Startup(data.thumbnails).0;
    }

    /** `render_model(model_relative_path)`. */
    method RenderModel(modelArg: string, renders: bool) returns (ok: bool)
      modifies data
      ensures data.models == old(data.models) && data.trajectories == old(data.trajectories)
      ensures (data.thumbnails, ok) == ModelRender(data.models, old(data.thumbnails), modelArg, renders)
    {
      var p := PathParts(modelArg);
      if !data.models.Exists(p) {
        return false;
      }
      if !(|p| > 0 && Suffix(Last(p)) == ".xml") {
        return false;
      }
      var id := FileId(modelArg);
      var subdir := ["models"] + Parent(p);
      var made := MakeDirs(data.thumbnails, subdir);
      if made.None? {
        return false;
      }
      data.thumbnails := made.value;
      if !(p in data.models.files && renders) {
        return false;
      }
      var written := WriteFile(data.thumbnails, subdir + [ThumbnailName(id)], Still(p));
      if written.None? {
        return false;
      }
      data.thumbnails := written.value;
      ok := true;
    }

    /** `render_trajectory(trajectories_dir / rel, model_relative_path)`. */
    method RenderTrajectory(rel: Path, modelArg: string, renders: bool) returns (ok: bool)
      requires |rel| > 0
      modifies data
      ensures data.models == old(data.models) && data.trajectories == old(data.trajectories)
      ensures (data.thumbnails, ok) == TrajectoryRender(data.models, old(data.thumbnails), data.trajectories, rel, modelArg, renders)
    {
      var p := PathParts(modelArg);
      if !data.models.Exists(p) {
        return false;
      }
      if !(|p| > 0 && Suffix(Last(p)) == ".xml") {
        return false;
      }
      var id := FileId(Join(rel));
      var subdir := ["trajectories"] + Parent(rel);
      var made := MakeDirs(data.thumbnails, subdir);
      if made.None? {
        return false;
      }
      data.thumbnails := made.value;
      if !(p in data.models.files && renders) {
        return false;
      }
      var image := LoadAnimation(data.trajectories, rel, p);
      if image.None? {
        return false;
      }
      var written := WriteFile(data.thumbnails, subdir + [ThumbnailName(id)], image.value);
      if written.None? {
        return false;
      }
      data.thumbnails := written.value;
      ok := true;
    }

    /** The loop of render_trajectories_in_folder: renders every file in turn
        and counts the renders that returned True. */
    method RenderBatch(files: seq<Path>, modelArg: string, renders: Path -> bool) returns (success: nat)
      requires forall k :: 0 <= k < |files| ==> |files[k]| > 0
      modifies data
      ensures data.models == old(data.models) && data.trajectories == old(data.trajectories)
      ensures var batch := Batch(data.models, old(data.thumbnails), data.trajectories, files[..|files|], modelArg, renders);
        data.thumbnails == batch.0 && success == Count(batch.1)
    {
      ghost var models, trajectories, thumbs := data.models, data.trajectories, data.thumbnails;
      success := 0;
      ghost var oks: seq<bool> := [];
      for i := 0 to |files|
        invariant data.models == models && data.trajectories == trajectories
        invariant (data.thumbnails, oks) == Batch(models, thumbs, trajectories, files[..i], modelArg, renders)
        invariant success == Count(oks)
      {
        BatchStep(models, thumbs, trajectories, files, modelArg, renders, i);
        var ok := RenderTrajectory(files[i], modelArg, renders(files[i]));
        if ok {
          success := success + 1;
        }
        assert (oks + [ok])[..|oks|] == oks;
        oks := oks + [ok];
      }
    }

    /** `render_trajectories_in_folder(folder_relative_path, model_relative_path)`;
        `walk` is the order in which the folder is read, `renders` says for each
        trajectory whether its model load and rendering succeed. */
    method RenderTrajectoriesInFolder(folderArg: string, modelArg: string, renders: Path -> bool, walk: seq<Path>)
      returns (success: nat, total: nat)
      requires Enumerates(walk, data.trajectories.Entries())
      modifies data
      ensures data.models == old(data.models) && data.trajectories == old(data.trajectories)
      ensures (data.thumbnails, success, total)
              == FolderRender(data.models, old(data.thumbnails), data.trajectories, walk, PathParts(folderArg), modelArg, renders)
    {
      var folder := PathParts(folderArg);
      if !data.trajectories.Exists(folder) || !data.trajectories.IsDir(folder) {
        return 0, 0;
      }
      var files := FolderTrajectories(walk, folder);
      if |files| == 0 {
        return 0, 0;
      }
      FolderRenderOfBatch(data.models, data.thumbnails, data.trajectories, walk, folder, modelArg, renders);
      success := RenderBatch(files, modelArg, renders);
      total := |files|;
    }
  }

  // ---------------------------------------------------------------- main

  /** The subcommand and its arguments. */
  datatype Command =
    | NoCommand
    | RenderModelCommand(model: string)
    | RenderTrajectoryCommand(trajectory: string, model: string)

  /** What `main` reports. */
  datatype Outcome =
    | Help
    | StartupFailed
    | ModelRendered(ok: bool)
    | TrajectoryRendered(ok: bool)
    | FolderRendered(success: nat, total: nat)
    | TrajectoryNotFound

  /** `main` after argument parsing: without a subcommand it shows the help and
      touches nothing; otherwise it builds the generator (which raises when
      its directories cannot be made) and runs the subcommand. A trajectory
      argument naming a file renders that file, one naming a folder renders
      the folder, and anything else is reported without rendering. */
  method Run(data: DataDir, command: Command, modelRenders: bool, renders: Path -> bool, walk: seq<Path>)
    returns (outcome: Outcome)
    requires data.trajectories.Valid() && Enumerates(walk, data.trajectories.Entries())
    modifies data
    ensures data.models == old(data.models) && data.trajectories == old(data.trajectories)
    ensures command.NoCommand? ==> outcome == Help && data.thumbnails == old(data.thumbnails)
    ensures !command.NoCommand? && !Startup(old(data.thumbnails)).1 ==>
      outcome == StartupFailed && data.thumbnails == Startup(old(data.thumbnails)).0
    ensures command.RenderModelCommand? && Startup(old(data.thumbnails)).1 ==>
      && outcome.ModelRendered?
      && (data.thumbnails, outcome.ok)
         == ModelRender(data.models, Startup(old(data.thumbnails)).0, command.model, modelRenders)
    ensures command.RenderTrajectoryCommand? && Startup(old(data.thumbnails)).1 ==>
      var f := PathParts(command.trajectory);
      var t := Startup(old(data.thumbnails)).0;
      if f in data.trajectories.files then
        && outcome.TrajectoryRendered? && |f| > 0
        && (data.thumbnails, outcome.ok) == TrajectoryRender(data.models, t, data.trajectories, f, command.model, renders(f))
      else if data.trajectories.IsDir(f) then
        && outcome.FolderRendered?
        && (data.thumbnails, outcome.success, outcome.total)
           == FolderRender(data.models, t, data.trajectories, walk, f, command.model, renders)
      else outcome == TrajectoryNotFound && data.thumbnails == t
  {
    if command.NoCommand? {
      return Help;
    }
    if !Startup(data.thumbnails).1 {
      data.thumbnails := Startup(data.thumbnails).0;
      return StartupFailed;
    }
    var generator := new ThumbnailGenerator(data);
    match command
    case RenderModelCommand(model) =>
      var ok := generator.RenderModel(model, modelRenders);
      outcome := ModelRendered(ok);
    case RenderTrajectoryCommand(trajectory, model) =>
      var f := PathParts(trajectory);
      if f in data.trajectories.files {
        var ok := generator.RenderTrajectory(f, model, renders(f));
        outcome := TrajectoryRendered(ok);
      } else if data.trajectories.IsDir(f) {
        var success, total := generator.RenderTrajectoriesInFolder(trajectory, model, renders, walk);
        outcome := FolderRendered(success, total);
      } else {
        outcome := TrajectoryNotFound;
      }
  }
}
