/** What the thumbnail generator's renders guarantee on their own, and how the
    files it writes line up with what the server lists: the thumbnail of a
    listed asset is named by the ID the server reports for it, and an animation
    shows the frames the server counts. */
module ThumbnailProperties {
  import opened Outcomes
  import opened Paths
  import opened FileIds
  import opened FileTree
  import opened TrajectoryFormat
  import opened Disk
  import opened FrameSampling
  import opened Catalog
  import opened Thumbnails

  // ---------------------------------------------------------------- real trees stay real

  /** The thumbnail path of an accepted model argument is made of well-formed
      names. */
  lemma ModelThumbnailIsRelPath(modelArg: string)
    requires IsRelArg(modelArg) && |PathParts(modelArg)| > 0
    ensures IsRelPath(ModelThumbnail(modelArg))
  {
    var p := PathParts(modelArg);
    PathPartsAreNames(modelArg);
    var dir := ["models"] + Parent(p);
    assert IsRelPath(dir[1..]) by { assert dir[1..] == Parent(p); }
    ThumbnailPathIsRelPath(dir, FileId(modelArg));
  }

  /** A model render keeps the thumbnail tree a real tree. */
  lemma ModelRenderKeepsValid(models: Tree<Entry>, thumbs: Tree<Image>, modelArg: string, renders: bool)
    requires thumbs.Valid() && IsRelArg(modelArg)
    ensures ModelRender(models, thumbs, modelArg, renders).0.Valid()
  {
    if AcceptsModel(models, PathParts(modelArg)) {
      ModelThumbnailIsRelPath(modelArg);
    }
  }

  /** A trajectory render keeps the thumbnail tree a real tree. */
  lemma TrajectoryRenderKeepsValid(models: Tree<Entry>, thumbs: Tree<Image>, trajectories: Tree<Entry>,
                                   rel: Path, modelArg: string, renders: bool)
    requires thumbs.Valid() && |rel| > 0 && IsRelPath(rel)
    ensures TrajectoryRender(models, thumbs, trajectories, rel, modelArg, renders).0.Valid()
  {
    if AcceptsModel(models, PathParts(modelArg)) {
      var dir := ["trajectories"] + Parent(rel);
      assert dir[1..] == Parent(rel);
      ThumbnailPathIsRelPath(dir, FileId(Join(rel)));
      assert TrajectoryThumbnail(rel) == dir + [ThumbnailName(FileId(Join(rel)))];
    }
  }

  lemma {:induction false} BatchKeepsValid(models: Tree<Entry>, thumbs: Tree<Image>, trajectories: Tree<Entry>,
                                           files: seq<Path>, modelArg: string, renders: Path -> bool)
    requires thumbs.Valid()
    requires forall k :: 0 <= k < |files| ==> |files[k]| > 0 && IsRelPath(files[k])
    ensures Batch(models, thumbs, trajectories, files, modelArg, renders).0.Valid()
  {
    if |files| > 0 {
      var init := files[..|files| - 1];
      var last := files[|files| - 1];
      BatchKeepsValid(models, thumbs, trajectories, init, modelArg, renders);
      var t1 := Batch(models, thumbs, trajectories, init, modelArg, renders).0;
      TrajectoryRenderKeepsValid(models, t1, trajectories, last, modelArg, renders(last));
    }
  }

  /** Rendering a whole folder keeps the thumbnail tree a real tree. */
  lemma FolderRenderKeepsValid(models: Tree<Entry>, thumbs: Tree<Image>, trajectories: Tree<Entry>,
                               walk: seq<Path>, folder: Path, modelArg: string, renders: Path -> bool)
    requires thumbs.Valid() && trajectories.Valid() && Enumerates(walk, trajectories.Entries())
    ensures FolderRender(models, thumbs, trajectories, walk, folder, modelArg, renders).0.Valid()
  {
    var files := FolderTrajectories(walk, folder);
    if trajectories.IsDir(folder) && |files| > 0 {
      forall k | 0 <= k < |files| ensures |files[k]| > 0 && IsRelPath(files[k]) {
        assert files[k] in walk;
      }
      BatchKeepsValid(models, thumbs, trajectories, files, modelArg, renders);
    }
  }

  // ---------------------------------------------------------------- the batch

  /** Every file of a folder is rendered, in order, each render seeing the
      thumbnails the earlier ones wrote; a failure does not stop the batch. */
  lemma {:induction false} BatchRendersEach(models: Tree<Entry>, thumbs: Tree<Image>, trajectories: Tree<Entry>,
                                            files: seq<Path>, modelArg: string, renders: Path -> bool, k: nat)
    requires forall j :: 0 <= j < |files| ==> |files[j]| > 0
    requires k < |files|
    ensures var before := Batch(models, thumbs, trajectories, files[..k], modelArg, renders).0;
      Batch(models, thumbs, trajectories, files, modelArg, renders).1[k]
        == TrajectoryRender(models, before, trajectories, files[k], modelArg, renders(files[k])).1
  {
    var init := files[..|files| - 1];
    if k < |files| - 1 {
      BatchRendersEach(models, thumbs, trajectories, init, modelArg, renders, k);
      assert init[..k] == files[..k] && init[k] == files[k];
    } else {
      assert files[..k] == init;
    }
  }

  /** The renders of a batch all succeed exactly when each render, taken in
      turn, returns True. */
  lemma BatchSucceedsIffEachRenderDoes(models: Tree<Entry>, thumbs: Tree<Image>, trajectories: Tree<Entry>,
                                       files: seq<Path>, modelArg: string, renders: Path -> bool)
    requires forall j :: 0 <= j < |files| ==> |files[j]| > 0
    ensures Count(Batch(models, thumbs, trajectories, files, modelArg, renders).1) == |files| <==>
      forall k :: 0 <= k < |files| ==>
        TrajectoryRender(models, Batch(models, thumbs, trajectories, files[..k], modelArg, renders).0,
                         trajectories, files[k], modelArg, renders(files[k])).1
  {
    var oks := Batch(models, thumbs, trajectories, files, modelArg, renders).1;
    if Count(oks) == |files| {
      forall k | 0 <= k < |files|
        ensures TrajectoryRender(models, Batch(models, thumbs, trajectories, files[..k], modelArg, renders).0,
                                 trajectories, files[k], modelArg, renders(files[k])).1
      {
        BatchRendersEach(models, thumbs, trajectories, files, modelArg, renders, k);
      }
    } else {
      var k :| 0 <= k < |files| && !oks[k];
      BatchRendersEach(models, thumbs, trajectories, files, modelArg, renders, k);
    }
  }

  /** `success_count == total_count` exactly when every render of the folder,
      taken in turn, returned True. */
  lemma FolderSucceedsIffEachRenderDoes(models: Tree<Entry>, thumbs: Tree<Image>, trajectories: Tree<Entry>,
                                        walk: seq<Path>, folder: Path, modelArg: string, renders: Path -> bool)
    requires trajectories.IsDir(folder) && Enumerates(walk, trajectories.Entries())
    ensures var files := FolderTrajectories(walk, folder);
      var r := FolderRender(models, thumbs, trajectories, walk, folder, modelArg, renders);
      r.1 == r.2 <==>
        forall k :: 0 <= k < |files| ==>
          TrajectoryRender(models, Batch(models, thumbs, trajectories, files[..k], modelArg, renders).0,
                           trajectories, files[k], modelArg, renders(files[k])).1
  {
    var files := FolderTrajectories(walk, folder);
    if |files| > 0 {
      assert forall j :: 0 <= j < |files| ==> files[j] in walk && IsChild(folder, files[j]);
      var batch := Batch(models, thumbs, trajectories, files, modelArg, renders);
      assert FolderRender(models, thumbs, trajectories, walk, folder, modelArg, renders) == (batch.0, Count(batch.1), |files|);
      BatchSucceedsIffEachRenderDoes(models, thumbs, trajectories, files, modelArg, renders);
    }
  }

  lemma {:induction false} RejectedModelBatch(models: Tree<Entry>, thumbs: Tree<Image>, trajectories: Tree<Entry>,
                                              files: seq<Path>, modelArg: string, renders: Path -> bool)
    requires forall k :: 0 <= k < |files| ==> |files[k]| > 0
    requires !AcceptsModel(models, PathParts(modelArg))
    ensures Batch(models, thumbs, trajectories, files, modelArg, renders).0 == thumbs
    ensures forall k :: 0 <= k < |files| ==> !Batch(models, thumbs, trajectories, files, modelArg, renders).1[k]
  {
    if |files| > 0 {
      RejectedModelBatch(models, thumbs, trajectories, files[..|files| - 1], modelArg, renders);
    }
  }

  /** A model that does not exist or is not ".xml" fails every trajectory of
      the folder: no thumbnail is written and no render counts as a success. */
  lemma RejectedModelFolder(models: Tree<Entry>, thumbs: Tree<Image>, trajectories: Tree<Entry>,
                            walk: seq<Path>, folder: Path, modelArg: string, renders: Path -> bool)
    requires !AcceptsModel(models, PathParts(modelArg)) && Enumerates(walk, trajectories.Entries())
    ensures FolderRender(models, thumbs, trajectories, walk, folder, modelArg, renders).0 == thumbs
    ensures FolderRender(models, thumbs, trajectories, walk, folder, modelArg, renders).1 == 0
  {
    var files := FolderTrajectories(walk, folder);
    if trajectories.IsDir(folder) && |files| > 0 {
      assert forall j :: 0 <= j < |files| ==> files[j] in walk && IsChild(folder, files[j]);
      RejectedModelBatch(models, thumbs, trajectories, files, modelArg, renders);
    }
  }

  // ---------------------------------------------------------------- agreement with the server

  lemma SuffixIsXml(name: string)
    requires Suffix(name) == ".xml"
    ensures EndsWith(name, ".xml") && |name| > |".xml"|
  {
  }

  /** A model the server lists, given to the generator as the relative path the
      server reports, is accepted unless its name is nothing but ".xml", and
      its thumbnail lies in the model's own directory under the ID the server
      reports for it. */
  lemma ListedModelThumbnail(t: Tree<Entry>, p: Path)
    requires t.Valid() && ListsModel(t, p)
    ensures var arg := ListedModel(t, p).relativePath;
      && PathParts(arg) == p
      && (AcceptsModel(t, PathParts(arg)) <==> |Last(p)| > |".xml"|)
      && (|Last(p)| > |".xml"| ==>
            ModelThumbnail(arg) == ["models"] + Parent(p) + [ThumbnailName(ListedModel(t, p).id)])
  {
    PathPartsOfJoin(p);
    if |p| == 1 {
      SuffixIsXml(p[0]);
    } else {
      SuffixOfExtension(p[1], ".xml");
      assert Join(p[1..]) == p[1];
    }
  }

  /** The model ID hashes the argument as typed: the listed model given as
      "./" followed by its listed path is accepted and rendered into the same
      directory, but its thumbnail is named by the hash of a string other than
      the one the server hashes. */
  lemma ModelIdFollowsSpelling(t: Tree<Entry>, p: Path)
    requires t.Valid() && ListsModel(t, p) && |Last(p)| > |".xml"|
    ensures var listed := ListedModel(t, p).relativePath;
      var arg := "./" + listed;
      && arg != listed
      && PathParts(arg) == p && AcceptsModel(t, PathParts(arg))
      && ModelThumbnail(arg) == ["models"] + Parent(p) + [ThumbnailName(FileId(arg))]
  {
    var listed := ListedModel(t, p).relativePath;
    ListedModelThumbnail(t, p);
    PathPartsOfDotSlash(listed);
    assert |"./" + listed| != |listed|;
  }

  /** A trajectory the server lists, named on the command line by its relative
      path, is the file the generator renders, and its thumbnail lies in the
      trajectory's own directory under the ID the server reports for it. */
  lemma ListedTrajectoryThumbnail(t: Tree<Entry>, p: Path)
    requires t.Valid() && IsTrajectoryFile(t, p)
    ensures PathParts(Join(p)) == p
    ensures TrajectoryThumbnail(p) == ["trajectories"] + Parent(p) + [ThumbnailName(ListedTrajectory(t, p).id)]
  {
    PathPartsOfJoin(p);
  }

  /** Unlike a model's, a trajectory's ID hashes the normalised path: the
      listed trajectory given as "./" followed by its path still gets the
      thumbnail named by its listed ID. */
  lemma TrajectoryIdIgnoresSpelling(t: Tree<Entry>, p: Path)
    requires t.Valid() && IsTrajectoryFile(t, p)
    ensures var arg := "./" + Join(p);
      && PathParts(arg) == p
      && TrajectoryThumbnail(PathParts(arg)) == ["trajectories"] + Parent(p) + [ThumbnailName(ListedTrajectory(t, p).id)]
  {
    PathPartsOfJoin(p);
    PathPartsOfDotSlash(Join(p));
  }

  /** The frame count the server lists for a trajectory is the number of pose
      rows the generator samples from: a listed count of at least one animates,
      a listed count of zero fails the render. */
  lemma ListedFrameCountIsAnimated(t: Tree<Entry>, p: Path, model: Path)
    requires IsTrajectoryFile(t, p) && ListedTrajectory(t, p).frameCount.Some?
    ensures var n := ListedTrajectory(t, p).frameCount.value;
      && (Animate(t, p, model).Some? <==> n >= 1)
      && (n >= 1 ==> forall k :: 0 <= k < TrajectoryFrames ==> Animate(t, p, model).value.rows[k] == FrameIndices(n)[k])
  {
    var stats := ParseTrajectory(Last(p), t.files[p].payload);
    assert ListedTrajectory(t, p).frameCount == stats.frameCount;
  }

  /** The server reads a trajectory by its name's suffix, the generator by its
      content: a bundle stored under a ".npy" name is listed without a frame
      count, yet it animates. */
  lemma MislabelledBundleAnimates(t: Tree<Entry>, p: Path, model: Path)
    requires IsTrajectoryFile(t, p) && Suffix(Last(p)) == ".npy"
    requires t.files[p].payload.Bundle? && "qpos" in t.files[p].payload.fields
    requires |t.files[p].payload.fields["qpos"].shape| > 0 && t.files[p].payload.fields["qpos"].shape[0] >= 1
    ensures ListedTrajectory(t, p).frameCount == None
    ensures Animate(t, p, model).Some?
  {
    var stats := ParseTrajectory(Last(p), t.files[p].payload);
    assert ListedTrajectory(t, p).frameCount == stats.frameCount;
  }

  // ---------------------------------------------------------------- what an animation shows

  /** An animation starts at the first pose row, ends at the last, never goes
      back and reads only rows that exist; with 30 rows or more it shows no row
      twice, and with fewer some row is held for two frames. */
  lemma AnimationSpansTrajectory(trajectories: Tree<Entry>, rel: Path, model: Path)
    requires Animate(trajectories, rel, model).Some?
    ensures var n := Len(PoseField(trajectories.files[rel].payload).value).value;
      var rows := Animate(trajectories, rel, model).value.rows;
      && rows[0] == 0 && rows[TrajectoryFrames - 1] == n - 1
      && (forall k :: 0 <= k < TrajectoryFrames ==> rows[k] < n)
      && (forall i, j :: 0 <= i <= j < TrajectoryFrames ==> rows[i] <= rows[j])
      && (n >= TrajectoryFrames ==> forall i, j :: 0 <= i < j < TrajectoryFrames ==> rows[i] < rows[j])
      && (n < TrajectoryFrames ==> exists k :: 0 <= k < TrajectoryFrames - 1 && rows[k] == rows[k + 1])
  {
    var n := Len(PoseField(trajectories.files[rel].payload).value).value;
    var rows := Animate(trajectories, rel, model).value.rows;
    FrameIndicesInBounds(n);
    FrameIndicesNonDecreasing(n);
    if n >= TrajectoryFrames {
      FrameIndicesDistinctWhenLong(n);
    } else {
      FrameIndicesRepeatWhenShort(n);
      var k :| 0 <= k < TrajectoryFrames - 1 && FrameIndices(n)[k] == FrameIndices(n)[k + 1];
      assert rows[k] == rows[k + 1];
    }
  }
}
