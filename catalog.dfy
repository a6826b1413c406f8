/** The catalog the server derives from the directory tree on every call
    (backend/storage.py): which files are listed, with what metadata, and which
    file an ID resolves to. There is no index: these functions of the tree and
    of the order the operating system enumerates it are the whole catalog. */
module Catalog {
  import opened Outcomes
  import opened Paths
  import opened FileIds
  import opened FileTree
  import opened TrajectoryFormat
  import opened Disk

  datatype TrajectoryMetadata = TrajectoryMetadata(
    id: string, filename: string, category: Option<string>, fileSize: nat,
    uploadDate: int, frameCount: Option<nat>, frameRate: Option<real>, numJoints: Option<nat>)

  datatype ModelMetadata = ModelMetadata(
    id: string, filename: string, modelName: Option<string>, relativePath: string,
    fileSize: nat, uploadDate: int)

  function TrajectoryDate(m: TrajectoryMetadata): int { m.uploadDate }

  function ModelDate(m: ModelMetadata): int { m.uploadDate }

  /** Where a save writes below the root: `root / sub / filename`, or
      `root / filename` when sub is None or empty. */
  function SaveDir(sub: Option<string>): Path {
    if sub.Some? && sub.value != "" then PathParts(sub.value) else []
  }

  function SaveTarget(filename: string, sub: Option<string>): Path {
    SaveDir(sub) + PathParts(filename)
  }

  // ---------------------------------------------------------------- trajectories

  predicate IsTrajectoryName(name: string) {
    EndsWith(name, ".npy") || EndsWith(name, ".npz")
  }

  /** A file os.walk reports anywhere below the trajectories root whose name
      ends in ".npy" or ".npz". */
  predicate IsTrajectoryFile(t: Tree<Entry>, p: Path) {
    |p| > 0 && p in t.files && IsTrajectoryName(Last(p))
  }

  /** The directory of a file relative to the root, or None at the root; a
      category can span several levels ("a/b"). */
  function CategoryOf(p: Path): Option<string>
    requires |p| > 0
  {
    if |p| == 1 then None else Some(Join(Parent(p)))
  }

  /** `if category and current_category != category: continue` — None and ""
      do not filter; any other filter must equal the category exactly. */
  predicate InCategory(filter: Option<string>, p: Path)
    requires |p| > 0
  {
    filter.None? || filter.value == "" || CategoryOf(p) == filter
  }

  predicate ListsTrajectory(t: Tree<Entry>, filter: Option<string>, p: Path) {
    IsTrajectoryFile(t, p) && InCategory(filter, p)
  }

  function TrajectoryMeta(p: Path, e: Entry, filename: string, category: Option<string>): TrajectoryMetadata
    requires |p| > 0
  {
    var stats := ParseTrajectory(Last(p), e.payload);
    TrajectoryMetadata(FileId(Join(p)), filename, category, e.size, e.mtime,
                       stats.frameCount, stats.frameRate, stats.numJoints)
  }

  /** The metadata list_trajectories builds for one file. */
  function ListedTrajectory(t: Tree<Entry>, p: Path): TrajectoryMetadata
    requires IsTrajectoryFile(t, p)
  {
    TrajectoryMeta(p, t.files[p], Last(p), CategoryOf(p))
  }

  /** The entries list_trajectories appends, in walk order, before sorting. */
  function CollectTrajectories(t: Tree<Entry>, walk: seq<Path>, filter: Option<string>): seq<TrajectoryMetadata> {
    if |walk| == 0 then []
    else
      var p := walk[|walk| - 1];
      CollectTrajectories(t, walk[..|walk| - 1], filter)
        + (if ListsTrajectory(t, filter, p) then [ListedTrajectory(t, p)] else [])
  }

  predicate TrajectoryHasId(t: Tree<Entry>, p: Path, id: string) {
    IsTrajectoryFile(t, p) && FileId(Join(p)) == id
  }

  /** The file get_trajectory returns: the first walked trajectory file whose
      relative path hashes to id. */
  function FirstTrajectory(t: Tree<Entry>, walk: seq<Path>, id: string): (r: Option<Path>)
    ensures r.Some? ==> TrajectoryHasId(t, r.value, id)
  {
    if |walk| == 0 then None
    else if TrajectoryHasId(t, walk[0], id) then Some(walk[0])
    else FirstTrajectory(t, walk[1..], id)
  }

  // ---------------------------------------------------------------- models

  /** The space get_model scans: a root-level file whose suffix is ".xml", or
      any entry (file or directory — glob does not tell them apart) directly
      inside a first-level directory whose name matches "*.xml". */
  predicate IsModelCandidate(t: Tree<Entry>, p: Path) {
    || (|p| == 1 && p in t.files && Suffix(p[0]) == ".xml")
    || (|p| == 2 && p in t.Entries() && EndsWith(p[1], ".xml"))
  }

  /** list_models additionally requires `is_file()`. */
  predicate ListsModel(t: Tree<Entry>, p: Path) {
    IsModelCandidate(t, p) && p in t.files
  }

  function ModelMeta(p: Path, e: Entry, filename: string, modelName: Option<string>): ModelMetadata
    requires |p| > 0
  {
    ModelMetadata(FileId(Join(p)), filename, modelName, Join(p), e.size, e.mtime)
  }

  /** The metadata list_models builds: a root-level file has no model name, a
      file inside a model directory carries that directory's name. */
  function ListedModel(t: Tree<Entry>, p: Path): (m: ModelMetadata)
    requires ListsModel(t, p)
    ensures |p| == 1 ==> m.modelName == None && m.relativePath == p[0] && m.filename == p[0]
    ensures |p| == 2 ==> m.modelName == Some(p[0]) && m.relativePath == p[0] + "/" + p[1] && m.filename == p[1]
  {
    assert |p| == 2 ==> Join(p[1..]) == p[1];
    ModelMeta(p, t.files[p], Last(p), if |p| == 2 then Some(p[0]) else None)
  }

  function CollectModels(t: Tree<Entry>, walk: seq<Path>): seq<ModelMetadata> {
    if |walk| == 0 then []
    else
      var p := walk[|walk| - 1];
      CollectModels(t, walk[..|walk| - 1]) + (if ListsModel(t, p) then [ListedModel(t, p)] else [])
  }

  predicate ModelHasId(t: Tree<Entry>, p: Path, id: string) {
    IsModelCandidate(t, p) && FileId(Join(p)) == id
  }

  /** The entry get_model returns: the first scanned candidate whose relative
      path hashes to id. */
  function FirstModel(t: Tree<Entry>, walk: seq<Path>, id: string): (r: Option<Path>)
    ensures r.Some? ==> ModelHasId(t, r.value, id)
  {
    if |walk| == 0 then None
    else if ModelHasId(t, walk[0], id) then Some(walk[0])
    else FirstModel(t, walk[1..], id)
  }

  /** No two files a lookup can return share an ID. MD5 does not promise this;
      the lemmas that need it say so. */
  ghost predicate TrajectoryIdsDistinct(t: Tree<Entry>) {
    forall p, q :: IsTrajectoryFile(t, p) && IsTrajectoryFile(t, q) && FileId(Join(p)) == FileId(Join(q)) ==> p == q
  }

  ghost predicate ModelIdsDistinct(t: Tree<Entry>) {
    forall p, q :: IsModelCandidate(t, p) && IsModelCandidate(t, q) && FileId(Join(p)) == FileId(Join(q)) ==> p == q
  }
}
