/** What `np.load` yields for a stored file, and the metadata the server derives
    from it (backend/storage.py:26-60). Array contents are not modelled: an array
    is its shape, plus the value `float()` gives for it. */
module TrajectoryFormat {
  import opened Outcomes
  import opened Paths

  /** A numpy array: its shape, and `float(array)`, or None where that raises
      (an array with more than one element). */
  datatype NdArray = NdArray(shape: seq<nat>, asFloat: Option<real>)

  /** `np.load(path)`: a plain array (`.npy` content), a named bundle of arrays
      (`.npz` content, an `NpzFile`), or an exception. np.load recognises the
      content, not the file name. */
  datatype Payload = Array(nd: NdArray) | Bundle(fields: map<string, NdArray>) | Unloadable

  /** `(frame_count, frame_rate, num_joints)`. */
  datatype Stats = Stats(frameCount: Option<nat>, frameRate: Option<real>, numJoints: Option<nat>)

  const NoStats := Stats(None, None, None)

  /** `len(a)`: the first axis, or None where len() raises (a 0-d array). */
  function Len(a: NdArray): Option<nat> {
    if |a.shape| == 0 then None else Some(a.shape[0])
  }

  /** `a.shape[1] if len(a.shape) > 1 else None`. */
  function Width(a: NdArray): Option<nat> {
    if |a.shape| > 1 then Some(a.shape[1]) else None
  }

  /** `data.get('frame_rate', data.get('framerate'))`. */
  function RateField(fields: map<string, NdArray>): Option<NdArray> {
    if "frame_rate" in fields then Some(fields["frame_rate"]) else Get(fields, "framerate")
  }

  /** The array whose first axis counts the frames: the array of a `.npy`, the
      `qpos` field of a `.npz`. */
  function PoseField(payload: Payload): Option<NdArray> {
    match payload
    case Array(a) => Some(a)
    case Bundle(fields) => Get(fields, "qpos")
    case Unloadable => None
  }

  /** `_parse_trajectory_file`: dispatches on the file name's suffix; every
      exception inside (no `.get` on a plain array, no `.shape` on a bundle,
      `len()` of a 0-d array, `float()` of a longer array, a load failure) is
      caught and gives three Nones, as does any other suffix. */
  function ParseTrajectory(name: string, payload: Payload): (r: Stats)
    // the frame rate is only ever read from a bundle
    ensures r.frameRate.Some? ==> Suffix(name) == ".npz" && payload.Bundle?
    // a frame count is the first axis of the pose array, and a joint count its second
    ensures r.frameCount.Some? <==>
              && ((Suffix(name) == ".npy" && payload.Array?) || (Suffix(name) == ".npz" && payload.Bundle?))
              && PoseField(payload).Some? && Len(PoseField(payload).value).Some?
              && (payload.Bundle? && RateField(payload.fields).Some? ==> RateField(payload.fields).value.asFloat.Some?)
    ensures r.frameCount.Some? ==> r.frameCount == Len(PoseField(payload).value)
                                   && r.numJoints == Width(PoseField(payload).value)
    ensures r.numJoints.Some? ==> r.frameCount.Some?
  {
    match payload
    case Bundle(fields) =>
      if Suffix(name) != ".npz" then NoStats
      else
        var qpos := Get(fields, "qpos");
        var rate := RateField(fields);
        if qpos.Some? && Len(qpos.value).None? then NoStats
        else if rate.Some? && rate.value.asFloat.None? then NoStats
        else if qpos.None? then Stats(None, if rate.Some? then rate.value.asFloat else None, None)
        else Stats(Len(qpos.value), if rate.Some? then rate.value.asFloat else None, Width(qpos.value))
    case Array(a) =>
      if Suffix(name) != ".npy" || Len(a).None? then NoStats
      else Stats(Len(a), None, Width(a))
    case Unloadable => NoStats
  }

  /** A `.npy` file: the frame and joint counts are the first two axes of the
      array, and a frame rate is never reported. */
  lemma NpyStats(name: string, payload: Payload)
    requires Suffix(name) == ".npy"
    ensures ParseTrajectory(name, payload).frameRate.None?
    ensures payload.Array? && |payload.nd.shape| >= 2 ==>
      ParseTrajectory(name, payload) == Stats(Some(payload.nd.shape[0]), None, Some(payload.nd.shape[1]))
    ensures payload.Array? && |payload.nd.shape| == 1 ==>
      ParseTrajectory(name, payload) == Stats(Some(payload.nd.shape[0]), None, None)
    ensures !payload.Array? || |payload.nd.shape| == 0 ==> ParseTrajectory(name, payload) == NoStats
  {
  }

  /** A `.npz` bundle: the counts come from `qpos` and are both absent without
      it; the rate is `frame_rate`, else `framerate`, else absent. A field that
      cannot be read that way spoils all three. */
  lemma NpzStats(name: string, fields: map<string, NdArray>)
    requires Suffix(name) == ".npz"
    ensures var r := ParseTrajectory(name, Bundle(fields));
      var rate := RateField(fields);
      if ("qpos" in fields && |fields["qpos"].shape| == 0) || (rate.Some? && rate.value.asFloat.None?) then r == NoStats
      else
        && r.frameRate == (if rate.Some? then rate.value.asFloat else None)
        && ("qpos" !in fields ==> r.frameCount.None? && r.numJoints.None?)
        && ("qpos" in fields ==> r.frameCount == Len(fields["qpos"]) && r.numJoints == Width(fields["qpos"]))
  {
  }

  /** Any other suffix, or content np.load cannot read, gives three Nones. */
  lemma OtherStats(name: string, payload: Payload)
    requires (Suffix(name) != ".npy" && Suffix(name) != ".npz") || payload.Unloadable?
    ensures ParseTrajectory(name, payload) == NoStats
  {
  }
}
