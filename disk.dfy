/** The data directory both processes work on: `models/`, `trajectories/` and
    `thumbnails/`. The server and the offline generator share nothing else. */
module Disk {
  import opened Paths
  import opened FileTree
  import opened TrajectoryFormat

  /** The bytes of an upload or of a stored file, as their length and as what
      `np.load` makes of them. */
  datatype Content = Content(size: nat, payload: Payload)

  /** A stored asset file: its content and `st_mtime`, in whole seconds. */
  datatype Entry = Entry(size: nat, mtime: int, payload: Payload)

  /** A file the generator writes: a still of a model, or an animation of a
      trajectory posed on a model, showing the given pose rows in order, each
      for frameMs milliseconds. Pixels are not modelled. */
  datatype Image =
    | Still(model: Path)
    | Animation(model: Path, trajectory: Path, rows: seq<nat>, frameMs: nat)

  /** An exception raised by the operating system (missing parent, a directory
      where a file is expected, a file where a directory is expected). */
  datatype OsError = OsError

  class DataDir {
    var models: Tree<Entry>
    var trajectories: Tree<Entry>
    var thumbnails: Tree<Image>

    ghost predicate Valid()
      reads this
    {
      models.Valid() && trajectories.Valid() && thumbnails.Valid()
    }

    constructor (models: Tree<Entry>, trajectories: Tree<Entry>, thumbnails: Tree<Image>)
      requires models.Valid() && trajectories.Valid() && thumbnails.Valid()
      ensures Valid()
      ensures this.models == models && this.trajectories == trajectories && this.thumbnails == thumbnails
    {
      this.models := models;
      this.trajectories := trajectories;
      this.thumbnails := thumbnails;
    }
  }
}
